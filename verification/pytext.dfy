/** The handful of Python `str` operations the program relies on:
    `isspace`, `strip`, `split(sep)`, `split()`, `isdigit` and `int`. */
module PyText {
  import opened Optional

  /** The code points for which Python's `str.isspace()` holds. `str.strip()`
      and `str.split()` treat exactly these as whitespace. None of them is a
      digit or one of the characters the program splits at or strips. */
  predicate IsSpace(c: char)
    ensures IsSpace(c) ==> !IsAsciiDigit(c) && c != '.' && c != ',' && c != '#' && c != ':' && c != '[' && c != ']'
  {
    var n := c as int;
    || n == 0x20
    || 0x09 <= n <= 0x0D
    || 0x1C <= n <= 0x1F
    || n == 0x85
    || n == 0xA0
    || n == 0x1680
    || 0x2000 <= n <= 0x200A
    || n == 0x2028
    || n == 0x2029
    || n == 0x202F
    || n == 0x205F
    || n == 0x3000
  }

  predicate IsAsciiDigit(c: char) {
    '0' <= c <= '9'
  }

  // ---------------------------------------------------------------------
  // strip

  /** `s.strip(chars)`: drops stripped characters from the front while there
      are any, then from the back. The result is no longer than `s`. */
  function Strip(s: string, strip: char -> bool): (r: string)
    ensures |r| <= |s|
    decreases |s|
  {
    if |s| > 0 && strip(s[0]) then Strip(s[1..], strip)
    else if |s| > 0 && strip(s[|s| - 1]) then Strip(s[..|s| - 1], strip)
    else s
  }

  /** All of `s` is made of stripped characters. */
  predicate AllStripped(s: string, strip: char -> bool) {
    forall i :: 0 <= i < |s| ==> strip(s[i])
  }

  /** `x` has no stripped character at either end. */
  predicate Trimmed(x: string, strip: char -> bool) {
    |x| == 0 || (!strip(x[0]) && !strip(x[|x| - 1]))
  }

  lemma PadFront(c: char, p: string, r: string, q: string, strip: char -> bool)
    requires strip(c) && AllStripped(p, strip)
    ensures AllStripped([c] + p, strip)
    ensures [c] + (p + r + q) == ([c] + p) + r + q
  {
    assert forall k :: 0 < k < |[c] + p| ==> ([c] + p)[k] == p[k - 1];
  }

  lemma PadBack(c: char, p: string, r: string, q: string, strip: char -> bool)
    requires strip(c) && AllStripped(q, strip)
    ensures AllStripped(q + [c], strip)
    ensures (p + r + q) + [c] == p + r + (q + [c])
  {
    assert forall k :: 0 <= k < |q| ==> (q + [c])[k] == q[k];
  }

  /** What `strip` removed: `s` is the result with padding made only of
      stripped characters on either side, and the result is trimmed. */
  lemma {:induction false} StripParts(s: string, strip: char -> bool) returns (pre: string, post: string)
    ensures AllStripped(pre, strip) && AllStripped(post, strip)
    ensures s == pre + Strip(s, strip) + post
    ensures Trimmed(Strip(s, strip), strip)
    decreases |s|
  {
    if |s| > 0 && strip(s[0]) {
      var p, q := StripParts(s[1..], strip);
      PadFront(s[0], p, Strip(s[1..], strip), q, strip);
      assert s == [s[0]] + s[1..];
      pre, post := [s[0]] + p, q;
    } else if |s| > 0 && strip(s[|s| - 1]) {
      var p, q := StripParts(s[..|s| - 1], strip);
      PadBack(s[|s| - 1], p, Strip(s[..|s| - 1], strip), q, strip);
      assert s == s[..|s| - 1] + [s[|s| - 1]];
      pre, post := p, q + [s[|s| - 1]];
    } else {
      pre, post := [], [];
      assert s == [] + s + [];
    }
  }

  /** A text whose first character is kept starts its stripped form. */
  lemma {:induction false} StripKeepsHead(s: string, strip: char -> bool)
    ensures |s| > 0 && !strip(s[0]) ==> |Strip(s, strip)| > 0 && Strip(s, strip)[0] == s[0]
    decreases |s|
  {
    if |s| > 1 && !strip(s[0]) && strip(s[|s| - 1]) {
      StripKeepsHead(s[..|s| - 1], strip);
    }
  }

  /** A non-empty result of `strip` neither starts nor ends with a stripped
      character. */
  lemma StripTrimmed(s: string, strip: char -> bool)
    ensures Trimmed(Strip(s, strip), strip)
  {
    var _, _ := StripParts(s, strip);
  }

  lemma {:induction false} StripAllStripped(s: string, strip: char -> bool)
    requires AllStripped(s, strip)
    ensures Strip(s, strip) == []
    decreases |s|
  {
    if |s| > 0 {
      StripAllStripped(s[1..], strip);
    }
  }

  /** `strip` removes exactly the padding: a trimmed core surrounded by
      stripped characters comes back unchanged, however long the padding. */
  lemma {:induction false} StripPadded(pre: string, x: string, post: string, strip: char -> bool)
    requires AllStripped(pre, strip) && AllStripped(post, strip) && Trimmed(x, strip)
    ensures Strip(pre + x + post, strip) == x
    decreases |pre| + |post|
  {
    var s := pre + x + post;
    if |pre| > 0 {
      assert s[0] == pre[0];
      assert s[1..] == pre[1..] + x + post;
      StripPadded(pre[1..], x, post, strip);
    } else if |x| == 0 {
      assert s == post;
      StripAllStripped(post, strip);
    } else if |post| > 0 {
      assert s[0] == x[0];
      assert s[|s| - 1] == post[|post| - 1];
      assert s[..|s| - 1] == pre + x + post[..|post| - 1];
      StripPadded(pre, x, post[..|post| - 1], strip);
    } else {
      assert s == x;
    }
  }

  /** Stripping twice is the same as stripping once. */
  lemma {:induction false} StripIdempotent(s: string, strip: char -> bool)
    ensures Strip(Strip(s, strip), strip) == Strip(s, strip)
  {
    var r := Strip(s, strip);
    StripTrimmed(s, strip);
    assert [] + r + [] == r;
    StripPadded([], r, [], strip);
  }

  // ---------------------------------------------------------------------
  // split(sep) and its inverse sep.join

  /** `sep.join(parts)` for a single-character separator. */
  function Join(parts: seq<string>, sep: char): string
    requires |parts| > 0
  {
    if |parts| == 1 then parts[0] else parts[0] + [sep] + Join(parts[1..], sep)
  }

  /** A join starts with its first part. */
  lemma JoinFirst(parts: seq<string>, sep: char)
    requires |parts| > 0 && |parts[0]| > 0
    ensures |Join(parts, sep)| > 0 && Join(parts, sep)[0] == parts[0][0]
  {
  }

  /** A join ends with its last part. */
  lemma {:induction false} JoinLast(parts: seq<string>, sep: char)
    requires |parts| > 0 && |parts[|parts| - 1]| > 0
    ensures |Join(parts, sep)| > 0
    ensures Join(parts, sep)[|Join(parts, sep)| - 1] == parts[|parts| - 1][|parts[|parts| - 1]| - 1]
    decreases |parts|
  {
    if |parts| > 1 {
      JoinLast(parts[1..], sep);
    }
  }

  /** Number of occurrences of `c` in `s`. */
  function Count(s: string, c: char): nat {
    if |s| == 0 then 0 else (if s[0] == c then 1 else 0) + Count(s[1..], c)
  }

  /** `s.split(sep)` for a single-character separator: never empty, one more
      part than there are separators, no part holds the separator, and
      joining the parts back with `sep` gives `s`. */
  function Split(s: string, sep: char): (parts: seq<string>)
    ensures |parts| == Count(s, sep) + 1
    ensures forall i :: 0 <= i < |parts| ==> sep !in parts[i]
    ensures Join(parts, sep) == s
    decreases |s|
  {
    if |s| == 0 then [""]
    else
      var rest := Split(s[1..], sep);
      if s[0] == sep then
        assert ([""] + rest)[1..] == rest;
        [""] + rest
      else
        var parts := [[s[0]] + rest[0]] + rest[1..];
        assert parts[1..] == rest[1..];
        assert s == [s[0]] + s[1..];
        assert Join(parts, sep) == [s[0]] + Join(rest, sep);
        parts
  }

  lemma {:induction false} SplitNoSeparator(w: string, sep: char)
    requires sep !in w
    ensures Split(w, sep) == [w]
    decreases |w|
  {
    if |w| > 0 {
      SplitNoSeparator(w[1..], sep);
      assert [w[0]] + w[1..] == w;
    }
  }

  lemma {:induction false} SplitAfterFirst(w: string, sep: char, t: string)
    requires sep !in w
    ensures Split(w + [sep] + t, sep) == [w] + Split(t, sep)
    decreases |w|
  {
    var s := w + [sep] + t;
    if |w| == 0 {
      assert s[1..] == t;
    } else {
      assert s[1..] == w[1..] + [sep] + t;
      SplitAfterFirst(w[1..], sep, t);
      assert [w[0]] + w[1..] == w;
    }
  }

  /** Splitting undoes joining when no part holds the separator: together
      with the `Join(Split(s)) == s` half in `Split`'s contract, the two are
      inverse. */
  lemma {:induction false} SplitJoin(parts: seq<string>, sep: char)
    requires |parts| > 0
    requires forall i :: 0 <= i < |parts| ==> sep !in parts[i]
    ensures Split(Join(parts, sep), sep) == parts
    decreases |parts|
  {
    if |parts| == 1 {
      SplitNoSeparator(parts[0], sep);
    } else {
      SplitAfterFirst(parts[0], sep, Join(parts[1..], sep));
      SplitJoin(parts[1..], sep);
      assert [parts[0]] + parts[1..] == parts;
    }
  }

  /** Two separator-free texts joined at `sep` split back into the two. */
  lemma SplitPair(a: string, b: string, sep: char)
    ensures sep !in a && sep !in b ==> Split(a + [sep] + b, sep) == [a, b]
  {
    if sep !in a && sep !in b {
      assert [a, b][1..] == [b];
      SplitJoin([a, b], sep);
    }
  }

  // ---------------------------------------------------------------------
  // split() with no argument

  /** A token of `str.split()`: non-empty, free of whitespace. */
  predicate IsWord(w: string) {
    |w| > 0 && forall k :: 0 <= k < |w| ==> !IsSpace(w[k])
  }

  /** All the parts, one after the other. */
  function Concat(ws: seq<string>): string {
    if |ws| == 0 then [] else ws[0] + Concat(ws[1..])
  }

  /** `s` with every whitespace character removed. */
  function NonSpace(s: string): string {
    if |s| == 0 then [] else (if IsSpace(s[0]) then [] else [s[0]]) + NonSpace(s[1..])
  }

  /** `s.split()`: the maximal runs of non-whitespace characters, in order.
      Every token is a word, and a text starting with a non-whitespace
      character has a first token starting with it. */
  function Words(s: string): (ws: seq<string>)
    ensures forall i :: 0 <= i < |ws| ==> IsWord(ws[i])
    ensures |s| > 0 && !IsSpace(s[0]) ==> |ws| > 0 && IsWord(ws[0]) && ws[0][0] == s[0]
    decreases |s|
  {
    if |s| == 0 then []
    else
      var rest := Words(s[1..]);
      if IsSpace(s[0]) then rest
      else if |s| > 1 && !IsSpace(s[1]) then [[s[0]] + rest[0]] + rest[1..]
      else [[s[0]]] + rest
  }

  /** The tokens of `split()` hold exactly the non-whitespace characters of
      the text, in order: nothing is lost and nothing is added. */
  lemma {:induction false} WordsConcat(s: string)
    ensures Concat(Words(s)) == NonSpace(s)
    decreases |s|
  {
    if |s| > 0 {
      var rest := Words(s[1..]);
      WordsConcat(s[1..]);
      if IsSpace(s[0]) {
      } else if |s| > 1 && !IsSpace(s[1]) {
        var ws := [[s[0]] + rest[0]] + rest[1..];
        assert ws[1..] == rest[1..];
        assert Concat(rest) == rest[0] + Concat(rest[1..]);
        assert Concat(ws) == [s[0]] + rest[0] + Concat(rest[1..]);
      } else {
        assert ([[s[0]]] + rest)[1..] == rest;
      }
    }
  }

  lemma {:induction false} WordsOfSpaces(s: string)
    requires AllStripped(s, IsSpace)
    ensures Words(s) == []
    decreases |s|
  {
    if |s| > 0 {
      WordsOfSpaces(s[1..]);
    }
  }

  lemma {:induction false} WordsLeadingSpaces(pre: string, s: string)
    requires AllStripped(pre, IsSpace)
    ensures Words(pre + s) == Words(s)
    decreases |pre|
  {
    if |pre| > 0 {
      assert (pre + s)[1..] == pre[1..] + s;
      WordsLeadingSpaces(pre[1..], s);
    } else {
      assert pre + s == s;
    }
  }

  lemma {:induction false} WordsTrailingSpaces(s: string, post: string)
    requires AllStripped(post, IsSpace)
    ensures Words(s + post) == Words(s)
    decreases |s|
  {
    if |s| == 0 {
      assert s + post == post;
      WordsOfSpaces(post);
    } else {
      assert (s + post)[1..] == s[1..] + post;
      WordsTrailingSpaces(s[1..], post);
    }
  }

  /** Surrounding whitespace does not change `split()`, so `text.strip().split()`
      tokenises like `text.split()`. */
  lemma WordsOfStrip(s: string)
    ensures Words(Strip(s, IsSpace)) == Words(s)
  {
    var pre, post := StripParts(s, IsSpace);
    var r := Strip(s, IsSpace);
    WordsLeadingSpaces(pre, r + post);
    WordsTrailingSpaces(r, post);
    assert pre + r + post == pre + (r + post);
  }

  lemma {:induction false} WordsOfWordThen(w: string, s: string)
    requires IsWord(w)
    requires |s| == 0 || IsSpace(s[0])
    ensures Words(w + s) == [w] + Words(s)
    decreases |w|
  {
    var t := w + s;
    assert t[1..] == w[1..] + s;
    if |w| == 1 {
      assert t[1..] == s;
      assert w == [w[0]];
    } else {
      WordsOfWordThen(w[1..], s);
      assert [w[0]] + w[1..] == w;
    }
  }

  /** `split()` undoes joining words with single spaces. */
  lemma {:induction false} WordsJoin(ws: seq<string>)
    requires |ws| > 0
    requires forall i :: 0 <= i < |ws| ==> IsWord(ws[i])
    ensures Words(Join(ws, ' ')) == ws
    decreases |ws|
  {
    if |ws| == 1 {
      WordsOfWordThen(ws[0], []);
      assert ws[0] + [] == ws[0];
    } else {
      var rest := Join(ws[1..], ' ');
      assert ws[0] + [' '] + rest == ws[0] + ([' '] + rest);
      WordsOfWordThen(ws[0], [' '] + rest);
      WordsLeadingSpaces([' '], rest);
      WordsJoin(ws[1..]);
      assert [ws[0]] + ws[1..] == ws;
    }
  }

  /** Words with the `k`-th separator between word `k` and word `k + 1`. */
  function Separated(ws: seq<string>, seps: seq<string>): string
    requires |ws| > 0 && |seps| == |ws| - 1
  {
    if |ws| == 1 then ws[0] else ws[0] + seps[0] + Separated(ws[1..], seps[1..])
  }

  lemma {:induction false} WordsSeparatedThen(ws: seq<string>, seps: seq<string>, post: string)
    requires |ws| > 0 && |seps| == |ws| - 1
    requires forall i :: 0 <= i < |ws| ==> IsWord(ws[i])
    requires forall i :: 0 <= i < |seps| ==> |seps[i]| > 0 && AllStripped(seps[i], IsSpace)
    requires AllStripped(post, IsSpace)
    ensures Words(Separated(ws, seps) + post) == ws
    decreases |ws|
  {
    if |ws| == 1 {
      WordsOfWordThen(ws[0], post);
      WordsOfSpaces(post);
      assert [ws[0]] + [] == ws;
    } else {
      var rest := Separated(ws[1..], seps[1..]) + post;
      assert Separated(ws, seps) + post == ws[0] + (seps[0] + rest);
      assert seps[0][0] == (seps[0] + rest)[0];
      WordsOfWordThen(ws[0], seps[0] + rest);
      WordsLeadingSpaces(seps[0], rest);
      WordsSeparatedThen(ws[1..], seps[1..], post);
      assert [ws[0]] + ws[1..] == ws;
    }
  }

  /** `split()` gives back the words of any document that writes them
      between runs of whitespace: one per line, separated by `\r\n`, tabs or
      blank lines, with any whitespace before the first and after the last. */
  lemma {:induction false} WordsSeparated(ws: seq<string>, seps: seq<string>, pre: string, post: string)
    requires |ws| > 0 && |seps| == |ws| - 1
    requires forall i :: 0 <= i < |ws| ==> IsWord(ws[i])
    requires forall i :: 0 <= i < |seps| ==> |seps[i]| > 0 && AllStripped(seps[i], IsSpace)
    requires AllStripped(pre, IsSpace) && AllStripped(post, IsSpace)
    ensures Words(pre + Separated(ws, seps) + post) == ws
  {
    var body := Separated(ws, seps) + post;
    assert pre + Separated(ws, seps) + post == pre + body;
    WordsLeadingSpaces(pre, body);
    WordsSeparatedThen(ws, seps, post);
  }

  // ---------------------------------------------------------------------
  // isdigit and int

  /** `s.isdigit()` over ASCII: non-empty and every character a digit. */
  predicate IsDigits(s: string) {
    |s| > 0 && forall k :: 0 <= k < |s| ==> IsAsciiDigit(s[k])
  }

  /** A digit string has no whitespace at its ends and none of the
      separators the program splits at: it passes through `strip()` and
      `split(',')` whole. */
  lemma DigitsPlain(s: string)
    requires IsDigits(s)
    ensures Trimmed(s, IsSpace) && Trimmed(s, IsIntSpace)
    ensures ',' !in s && '.' !in s && '#' !in s
  {
    assert IsAsciiDigit(s[0]) && IsAsciiDigit(s[|s| - 1]);
  }

  function DigitValue(c: char): nat
    requires IsAsciiDigit(c)
  {
    c as int - '0' as int
  }

  function DigitChar(d: nat): (c: char)
    requires d < 10
    ensures IsAsciiDigit(c) && DigitValue(c) == d
  {
    ('0' as int + d) as char
  }

  /** The digit string `int()` accepts after its sign: ASCII digits, where a
      single `_` may stand between two digits. */
  predicate IsDigitGroups(u: string) {
    && |u| > 0
    && IsAsciiDigit(u[0])
    && DigitsOrUnderscores(u)
    && forall i :: 0 <= i < |u| && u[i] == '_' ==> i + 1 < |u| && IsAsciiDigit(u[i + 1])
  }

  predicate DigitsOrUnderscores(u: string) {
    forall i :: 0 <= i < |u| ==> IsAsciiDigit(u[i]) || u[i] == '_'
  }

  /** Value of a digit-group string, underscores ignored. */
  function GroupsValue(u: string): nat
    requires DigitsOrUnderscores(u)
  {
    if |u| == 0 then 0
    else if u[|u| - 1] == '_' then GroupsValue(u[..|u| - 1])
    else GroupsValue(u[..|u| - 1]) * 10 + DigitValue(u[|u| - 1])
  }

  /** The whitespace `int()` skips around its digits: every `isspace`
      character except U+001C..U+001F. CPython turns non-ASCII whitespace
      into spaces and then skips only the ASCII space, tab, newline, vertical
      tab, form feed and carriage return, so the four ASCII separator
      characters are not skipped. */
  predicate IsIntSpace(c: char)
    ensures c as int < 0x80 ==> (IsIntSpace(c) <==> c == ' ' || '\t' <= c <= '\r')
    ensures c as int >= 0x80 ==> (IsIntSpace(c) <==> IsSpace(c))
  {
    IsSpace(c) && !(0x1C <= c as int <= 0x1F)
  }

  /** The default of `sys.get_int_max_str_digits()`: `int()` refuses a
      decimal text with more digits than this. */
  const MaxStrDigits: nat := 4300

  /** Number of digits in a digit-group string: its underscores do not
      count. */
  function DigitCount(u: string): int {
    |u| - Count(u, '_')
  }

  /** Python `int(s)` in base 10: surrounding whitespace, an optional sign,
      then digit groups of at most `MaxStrDigits` digits; anything else is a
      `ValueError`, here `None`. The empty text never reads as a number. */
  function ParseInt(s: string): (r: Option<int>)
    ensures r.Some? ==> |s| > 0
  {
    ParseTrimmed(Strip(s, IsIntSpace))
  }

  /** The sign is where `int()` finds it: a text starting with `-` never reads
      as a positive number, one starting with a digit never as a negative
      one. */
  lemma ParseIntSign(s: string)
    ensures ParseInt(s).Some? && |s| > 0 && s[0] == '-' ==> ParseInt(s).value <= 0
    ensures ParseInt(s).Some? && |s| > 0 && IsAsciiDigit(s[0]) ==> ParseInt(s).value >= 0
  {
    StripKeepsHead(s, IsIntSpace);
  }

  /** `int()` once the surrounding whitespace is gone. */
  function ParseTrimmed(t: string): Option<int>
  {
    var signed := |t| > 0 && (t[0] == '+' || t[0] == '-');
    var body := if signed then t[1..] else t;
    if IsDigitGroups(body) && DigitCount(body) <= MaxStrDigits then
      var v: int := GroupsValue(body);
      Some(if signed && t[0] == '-' then -v else v)
    else
      None
  }

  /** `str(n)` for a natural number. */
  function Decimal(n: nat): (d: string)
    ensures IsDigits(d)
  {
    if n < 10 then [DigitChar(n)] else Decimal(n / 10) + [DigitChar(n % 10)]
  }

  /** A number below 1000 has at most three digits. */
  lemma DecimalShort(n: nat)
    requires n < 1000
    ensures |Decimal(n)| <= 3
  {
    if n >= 10 {
      assert |Decimal(n)| == |Decimal(n / 10)| + 1;
      if n / 10 >= 10 {
        assert n / 10 / 10 < 10;
        assert |Decimal(n / 10)| == |Decimal(n / 10 / 10)| + 1;
      }
    }
  }

  lemma {:induction false} GroupsValueDecimal(n: nat)
    ensures GroupsValue(Decimal(n)) == n
  {
    var d := Decimal(n);
    if n >= 10 {
      assert d[..|d| - 1] == Decimal(n / 10);
      GroupsValueDecimal(n / 10);
    } else {
      assert d[..0] == [];
    }
  }

  lemma {:induction false} CountAbsent(s: string, c: char)
    requires c !in s
    ensures Count(s, c) == 0
    decreases |s|
  {
    if |s| > 0 {
      CountAbsent(s[1..], c);
    }
  }

  /** `str(n)` has no underscore, so all its characters count as digits. */
  lemma DecimalDigitCount(n: nat)
    ensures DigitCount(Decimal(n)) == |Decimal(n)|
  {
    var d := Decimal(n);
    assert forall k :: 0 <= k < |d| ==> d[k] != '_';
    CountAbsent(d, '_');
  }

  /** `int(str(n)) == n`, whatever whitespace `int()` skips surrounds the
      digits, as long as `str(n)` is within the digit limit; beyond it
      `int()` refuses. */
  lemma ParseIntDecimal(n: nat, pre: string, post: string)
    requires AllStripped(pre, IsIntSpace) && AllStripped(post, IsIntSpace)
    ensures |Decimal(n)| <= MaxStrDigits ==> ParseInt(pre + Decimal(n) + post) == Some(n)
    ensures |Decimal(n)| > MaxStrDigits ==> ParseInt(pre + Decimal(n) + post) == None
  {
    var d := Decimal(n);
    GroupsValueDecimal(n);
    DecimalDigitCount(n);
    DigitsTrimmed(d);
    StripPadded(pre, d, post, IsIntSpace);
    assert !(|d| > 0 && (d[0] == '+' || d[0] == '-'));
  }

  lemma NegatedValue(n: nat)
    ensures |Decimal(n)| <= MaxStrDigits ==> ParseTrimmed("-" + Decimal(n)) == Some(-(n as int))
    ensures |Decimal(n)| > MaxStrDigits ==> ParseTrimmed("-" + Decimal(n)) == None
  {
    var d := Decimal(n);
    var m := "-" + d;
    GroupsValueDecimal(n);
    DecimalDigitCount(n);
    assert m[1..] == d;
  }

  lemma DigitsTrimmed(d: string)
    requires IsDigits(d)
    ensures Trimmed(d, IsIntSpace)
  {
  }

  /** `int("-" + str(n)) == -n` within the digit limit, whatever whitespace
      `int()` skips surrounds the number. */
  lemma ParseIntNegated(n: nat, pre: string, post: string)
    requires AllStripped(pre, IsIntSpace) && AllStripped(post, IsIntSpace)
    ensures |Decimal(n)| <= MaxStrDigits ==> ParseInt(pre + "-" + Decimal(n) + post) == Some(-(n as int))
    ensures |Decimal(n)| > MaxStrDigits ==> ParseInt(pre + "-" + Decimal(n) + post) == None
  {
    var d := Decimal(n);
    var m := "-" + d;
    NegatedValue(n);
    assert Trimmed(m, IsIntSpace);
    assert pre + "-" + d + post == pre + m + post;
    StripPadded(pre, m, post, IsIntSpace);
  }

  /** `int()` raises on any text without an ASCII digit. */
  lemma ParseIntNeedsDigit(s: string)
    requires forall k :: 0 <= k < |s| ==> !IsAsciiDigit(s[k])
    ensures ParseInt(s) == None
  {
    var pre, post := StripParts(s, IsIntSpace);
    var t := Strip(s, IsIntSpace);
    assert forall k :: 0 <= k < |t| ==> t[k] == s[|pre| + k];
  }

  /** Whatever `int()` reads holds an ASCII digit. */
  lemma ParseIntHasDigit(s: string)
    ensures ParseInt(s).Some? ==> exists k :: 0 <= k < |s| && IsAsciiDigit(s[k])
  {
    if forall k :: 0 <= k < |s| ==> !IsAsciiDigit(s[k]) {
      ParseIntNeedsDigit(s);
    }
  }

  /** `int()` refuses a text of more than `MaxStrDigits` digits, even when
      they are all zeros. */
  lemma TooManyDigits(d: string)
    requires IsDigits(d) && |d| > MaxStrDigits
    ensures ParseInt(d) == None
  {
    assert forall k :: 0 <= k < |d| ==> d[k] != '_';
    CountAbsent(d, '_');
    StripPadded([], d, [], IsIntSpace);
    assert [] + d + [] == d;
  }

  /** The separator characters U+001C..U+001F are whitespace to `strip()`
      and `split()` but not to `int()`. */
  lemma SeparatorNotIntSpace(d: string)
    requires IsDigits(d)
    ensures IsSpace('\U{1C}') && !IsIntSpace('\U{1C}')
    ensures ParseInt("\U{1C}" + d) == None
  {
    var s := "\U{1C}" + d;
    StripPadded([], s, [], IsIntSpace);
    assert [] + s + [] == s;
  }
}
