/** `is_valid_ip`: the dotted-quad IPv4 syntax check. */
module IpCheck {
  import opened Optional
  import opened PyText

  predicate IsBracket(c: char) {
    c == '[' || c == ']'
  }

  /** `s.strip('[]')`: removes every `[` and `]` at either end, not just one
      surrounding pair. The result has none left at its ends, and a text
      without a bracket at either end comes back unchanged. */
  function StripBrackets(s: string): (r: string)
    ensures |r| <= |s|
    ensures Trimmed(r, IsBracket)
    ensures Trimmed(s, IsBracket) ==> r == s
  {
    StripTrimmed(s, IsBracket);
    Strip(s, IsBracket)
  }

  /** `0 <= int(part) <= 255`, with a part `int()` rejects counting as false.
      A part that passes is non-empty and holds a digit. */
  predicate IsOctet(part: string)
    ensures IsOctet(part) ==> |part| > 0 && exists k :: 0 <= k < |part| && IsAsciiDigit(part[k])
  {
    ParseIntHasDigit(part);
    match ParseInt(part)
    case Some(v) => 0 <= v <= 255
    case None => false
  }

  /** `is_valid_ip(ip)`. Total: every `ValueError` that `is_valid_ip`
      catches is a plain `false` here. Once its brackets are stripped, a
      valid address has exactly three dots and at least seven characters:
      four non-empty numbers between them. */
  predicate IsValidIp(s: string)
    ensures IsValidIp(s) ==> Count(StripBrackets(s), '.') == 3
    ensures IsValidIp(s) ==> |StripBrackets(s)| >= 7
  {
    var parts := Split(StripBrackets(s), '.');
    QuadLength(parts);
    IsQuad(parts)
  }

  /** Exactly four parts, each an octet. */
  predicate IsQuad(parts: seq<string>) {
    |parts| == 4 && IsOctet(parts[0]) && IsOctet(parts[1]) && IsOctet(parts[2]) && IsOctet(parts[3])
  }

  /** Four octets joined by dots take at least seven characters. */
  lemma QuadLength(parts: seq<string>)
    requires |parts| > 0
    ensures IsQuad(parts) ==> |Join(parts, '.')| >= 7
  {
    if IsQuad(parts) {
      assert parts[1..][1..][1..] == [parts[3]];
      assert |Join(parts[1..][1..], '.')| >= 3;
      assert |Join(parts[1..], '.')| >= 5;
    }
  }

  /** The validator, stated against any way of writing the bracket-stripped
      text as dot-free parts joined by dots: it holds exactly when there are
      four parts and each is an octet. */
  lemma {:induction false} ValidIpIff(s: string, parts: seq<string>)
    requires |parts| > 0
    requires forall i :: 0 <= i < |parts| ==> '.' !in parts[i]
    requires StripBrackets(s) == Join(parts, '.')
    ensures IsValidIp(s) <==> IsQuad(parts)
  {
    SplitJoin(parts, '.');
  }

  /** A text with other than three dots once the brackets are gone is never
      valid. */
  lemma WrongDotCount(s: string)
    requires Count(StripBrackets(s), '.') != 3
    ensures !IsValidIp(s)
  {
    var parts := Split(StripBrackets(s), '.');
    assert |parts| != 4;
  }

  /** The canonical text `a.b.c.d` of four numbers. */
  function DottedQuad(a: nat, b: nat, c: nat, d: nat): string {
    Join([Decimal(a), Decimal(b), Decimal(c), Decimal(d)], '.')
  }

  lemma DecimalHasNoDot(n: nat)
    ensures '.' !in Decimal(n)
  {
    var d := Decimal(n);
    assert forall k :: 0 <= k < |d| ==> d[k] != '.';
  }

  lemma DottedQuadTrimmed(a: nat, b: nat, c: nat, d: nat)
    ensures Trimmed(DottedQuad(a, b, c, d), IsBracket)
  {
    var parts := [Decimal(a), Decimal(b), Decimal(c), Decimal(d)];
    JoinFirst(parts, '.');
    JoinLast(parts, '.');
  }

  /** `str(n)` is an octet exactly when `n` is at most 255. */
  lemma OctetDecimal(n: nat)
    ensures IsOctet(Decimal(n)) <==> n <= 255
  {
    OctetPadded(n, [], []);
    assert [] + Decimal(n) + [] == Decimal(n);
  }

  /** `int()` forgives the whitespace it skips around a part: a padded
      `str(n)` is an octet exactly when `n` is at most 255. */
  lemma {:induction false} OctetPadded(n: nat, pre: string, post: string)
    requires AllStripped(pre, IsIntSpace) && AllStripped(post, IsIntSpace)
    ensures IsOctet(pre + Decimal(n) + post) <==> n <= 255
  {
    ParseIntDecimal(n, pre, post);
    if n <= 255 {
      DecimalShort(n);
    }
  }

  /** `-` followed by `str(n)`, with skipped whitespace around it, passes
      only for n = 0: `int("-0")` is `0`, inside the range, while every
      other negative number is below it. */
  lemma {:induction false} OctetNegative(n: nat, pre: string, post: string)
    requires AllStripped(pre, IsIntSpace) && AllStripped(post, IsIntSpace)
    ensures IsOctet(pre + "-" + Decimal(n) + post) <==> n == 0
  {
    ParseIntNegated(n, pre, post);
    if n == 0 {
      DecimalShort(n);
    }
  }

  /** A part that `int()` cannot read makes the address invalid even though
      every part is in range once read: an information separator in front
      of the first number, or a first number written with more digits than
      `int()` accepts. */
  lemma {:induction false} FirstPartUnreadable(first: string, s: string)
    requires s == first + ".0.0.0" && '.' !in first
    requires |first| > 0 && !IsBracket(first[0])
    requires ParseInt(first) == None
    ensures !IsValidIp(s)
  {
    var parts := [first, "0", "0", "0"];
    ThreeZerosJoin(first);
    UnbracketedUnchanged(s);
    ValidIpIff(s, parts);
  }

  lemma ThreeZerosJoin(first: string)
    ensures Join([first, "0", "0", "0"], '.') == first + ".0.0.0"
  {
    var parts := [first, "0", "0", "0"];
    assert parts[1..][1..][1..] == ["0"];
    assert Join(parts[1..][1..], '.') == "0.0";
    assert Join(parts[1..], '.') == "0.0.0";
  }

  lemma UnbracketedUnchanged(s: string)
    requires |s| > 0 && !IsBracket(s[0]) && !IsBracket(s[|s| - 1])
    ensures StripBrackets(s) == s
  {
    StripPadded([], s, [], IsBracket);
    assert [] + s + [] == s;
  }

  /** `is_valid_ip` rejects `\x1c1.0.0.0`: `int()` does not skip U+001C. */
  lemma SeparatorRejected()
    ensures !IsValidIp("\U{1C}1.0.0.0")
  {
    SeparatorNotIntSpace("1");
    FirstPartUnreadable("\U{1C}1", "\U{1C}1.0.0.0");
  }

  /** `is_valid_ip` rejects a first number of more than 4300 digits, even
      zeros. */
  lemma TooManyDigitsRejected(d: string)
    requires IsDigits(d) && |d| > MaxStrDigits
    ensures !IsValidIp(d + ".0.0.0")
  {
    TooManyDigits(d);
    assert forall k :: 0 <= k < |d| ==> d[k] != '.';
    FirstPartUnreadable(d, d + ".0.0.0");
  }

  /** The four numbers are what splitting `a.b.c.d` at its dots gives back. */
  lemma {:induction false} DottedQuadParts(a: nat, b: nat, c: nat, d: nat)
    ensures Split(DottedQuad(a, b, c, d), '.') == [Decimal(a), Decimal(b), Decimal(c), Decimal(d)]
  {
    var parts := [Decimal(a), Decimal(b), Decimal(c), Decimal(d)];
    DecimalHasNoDot(a);
    DecimalHasNoDot(b);
    DecimalHasNoDot(c);
    DecimalHasNoDot(d);
    SplitJoin(parts, '.');
  }

  /** Brackets around `a.b.c.d` are all stripped, and nothing else is. */
  lemma DottedQuadStripped(a: nat, b: nat, c: nat, d: nat, open: string, close: string)
    requires AllStripped(open, IsBracket) && AllStripped(close, IsBracket)
    ensures StripBrackets(open + DottedQuad(a, b, c, d) + close) == DottedQuad(a, b, c, d)
  {
    DottedQuadTrimmed(a, b, c, d);
    StripPadded(open, DottedQuad(a, b, c, d), close, IsBracket);
  }

  /** Every `a.b.c.d` with all four numbers at most 255 is valid, inside any
      run of brackets on either side. */
  lemma DottedQuadValid(a: nat, b: nat, c: nat, d: nat, open: string, close: string)
    requires a <= 255 && b <= 255 && c <= 255 && d <= 255
    requires AllStripped(open, IsBracket) && AllStripped(close, IsBracket)
    ensures IsValidIp(open + DottedQuad(a, b, c, d) + close)
  {
    DottedQuadStripped(a, b, c, d, open, close);
    DottedQuadParts(a, b, c, d);
    OctetDecimal(a);
    OctetDecimal(b);
    OctetDecimal(c);
    OctetDecimal(d);
  }

  /** A dotted quad with one number above 255 is rejected, whichever
      position it is in. */
  lemma OctetTooLarge(a: nat, b: nat, c: nat, d: nat)
    requires a > 255 || b > 255 || c > 255 || d > 255
    ensures !IsValidIp(DottedQuad(a, b, c, d))
  {
    var q := DottedQuad(a, b, c, d);
    DottedQuadStripped(a, b, c, d, [], []);
    assert [] + q + [] == q;
    DottedQuadParts(a, b, c, d);
    OctetDecimal(a);
    OctetDecimal(b);
    OctetDecimal(c);
    OctetDecimal(d);
  }
}
