/** The pipeline's own logic: port configuration, the lines built from a
    domain's addresses and from the remote list, and how `main` puts them
    together and decides whether to write the output file. */
module Enrich {
  import opened Optional
  import opened PyText
  import opened StrOrder
  import opened Geo
  import opened IpCheck

  // ---------------------------------------------------------------------
  // Ports

  /** `TARGET_PORTS` when the variable is unset. */
  const DefaultPorts: string := "443"

  /** The port used when no configured token survives. */
  const FallbackPort: string := "443"

  /** `[port.strip() for port in tokens if port.strip().isdigit()]`. */
  function KeepPorts(tokens: seq<string>): (ports: seq<string>)
    ensures |ports| <= |tokens|
    ensures forall i :: 0 <= i < |ports| ==> IsDigits(ports[i])
  {
    if |tokens| == 0 then []
    else
      var t := Strip(tokens[0], IsSpace);
      (if IsDigits(t) then [t] else []) + KeepPorts(tokens[1..])
  }

  /** Filtering keeps order and repeats: it works token by token, so the
      ports of a concatenation are the concatenated ports. */
  lemma {:induction false} KeepPortsAppend(a: seq<string>, b: seq<string>)
    ensures KeepPorts(a + b) == KeepPorts(a) + KeepPorts(b)
    decreases |a|
  {
    if |a| == 0 {
      assert a + b == b;
    } else {
      var t := Strip(a[0], IsSpace);
      var head := if IsDigits(t) then [t] else [];
      assert (a + b)[0] == a[0] && (a + b)[1..] == a[1..] + b;
      assert KeepPorts(a + b) == head + KeepPorts(a[1..] + b);
      assert KeepPorts(a) == head + KeepPorts(a[1..]);
      KeepPortsAppend(a[1..], b);
      assert head + (KeepPorts(a[1..]) + KeepPorts(b)) == (head + KeepPorts(a[1..])) + KeepPorts(b);
    }
  }

  /** A digit string has nothing to strip. */
  lemma DigitsUnstripped(p: string)
    requires IsDigits(p)
    ensures Strip(p, IsSpace) == p
  {
    DigitsTrimmed(p);
    StripPadded([], p, [], IsSpace);
    assert [] + p + [] == p;
  }

  /** Tokens that are already digit strings all survive, unchanged. */
  lemma {:induction false} KeepPortsOfDigits(ports: seq<string>)
    requires forall i :: 0 <= i < |ports| ==> IsDigits(ports[i])
    ensures KeepPorts(ports) == ports
    decreases |ports|
  {
    if |ports| > 0 {
      DigitsUnstripped(ports[0]);
      KeepPortsOfDigits(ports[1..]);
      assert ports == [ports[0]] + ports[1..];
    }
  }

  /** The ports named in a `TARGET_PORTS` value, before the fallback. */
  function ParsePorts(raw: string): (ports: seq<string>)
    ensures |ports| <= Count(raw, ',') + 1
    ensures forall i :: 0 <= i < |ports| ==> IsDigits(ports[i])
  {
    KeepPorts(Split(raw, ','))
  }

  /** `TARGET_PORTS` written as comma-separated tokens parses to the tokens
      that survive trimming and the digit test, in order. */
  lemma {:induction false} ParsePortsJoin(tokens: seq<string>)
    requires |tokens| > 0
    requires forall i :: 0 <= i < |tokens| ==> ',' !in tokens[i]
    ensures ParsePorts(Join(tokens, ',')) == KeepPorts(tokens)
  {
    SplitJoin(tokens, ',');
  }

  /** Digit-string ports joined with commas parse back to themselves, repeats
      and all, and no port range is enforced. */
  lemma {:induction false} ParsePortsRoundTrip(ports: seq<string>)
    requires |ports| > 0
    requires forall i :: 0 <= i < |ports| ==> IsDigits(ports[i])
    ensures ParsePorts(Join(ports, ',')) == ports
  {
    forall i | 0 <= i < |ports| ensures ',' !in ports[i] {
      assert forall k :: 0 <= k < |ports[i]| ==> ports[i][k] != ',';
    }
    ParsePortsJoin(ports);
    KeepPortsOfDigits(ports);
  }

  /** The ports `resolve_domain` uses: the parsed ones, or `["443"]` when none
      survive. Never empty, every entry a digit string. */
  function EffectivePorts(configured: Option<string>): (ports: seq<string>)
    ensures |ports| > 0
    ensures forall i :: 0 <= i < |ports| ==> IsDigits(ports[i])
  {
    var parsed := ParsePorts(configured.GetOr(DefaultPorts));
    if |parsed| == 0 then [FallbackPort] else parsed
  }

  /** The effective ports are the parsed ones when any survive. The result is
      `["443"]` exactly when no token survives or the only survivor is `443`
      itself. */
  lemma EffectivePortsCases(configured: Option<string>)
    ensures ParsePorts(configured.GetOr(DefaultPorts)) != [] ==>
              EffectivePorts(configured) == ParsePorts(configured.GetOr(DefaultPorts))
    ensures EffectivePorts(configured) == ["443"] <==>
              ParsePorts(configured.GetOr(DefaultPorts)) in {[], ["443"]}
  {
  }

  /** Unset, empty, or made only of rejected tokens, `TARGET_PORTS` gives
      `["443"]`. */
  lemma DefaultPortsUsed(configured: Option<string>)
    requires configured.Some? ==> ParsePorts(configured.value) == []
    ensures EffectivePorts(configured) == ["443"]
  {
    if configured.None? {
      SplitNoSeparator(DefaultPorts, ',');
      DigitsUnstripped(DefaultPorts);
    }
  }

  /** `TARGET_PORTS="443, 8080,, abc"` gives `["443", "8080"]`. */
  lemma {:induction false} PortsExample()
    ensures EffectivePorts(Some("443, 8080,, abc")) == ["443", "8080"]
  {
    var tokens := ["443", " 8080", "", " abc"];
    ExampleTokensJoin();
    ParsePortsJoin(tokens);
    ExampleTokensKept();
  }

  lemma ExampleTokensJoin()
    ensures Join(["443", " 8080", "", " abc"], ',') == "443, 8080,, abc"
  {
    var tokens := ["443", " 8080", "", " abc"];
    assert tokens[1..] == [" 8080", "", " abc"];
    assert tokens[1..][1..] == ["", " abc"];
    assert tokens[1..][1..][1..] == [" abc"];
  }

  lemma ExampleTokensKeptRejected()
    ensures KeepPorts([" abc"]) == [] && KeepPorts([""]) == []
  {
    LeadingSpaceStripped("abc");
    assert "abc"[0] == 'a' && !IsDigits("abc");
  }

  lemma ExampleTokensKeptAccepted()
    ensures KeepPorts([" 8080"]) == ["8080"] && KeepPorts(["443"]) == ["443"]
  {
    KeptDigits("443", "");
    KeptDigits("8080", " ");
  }

  lemma KeptDigits(p: string, pad: string)
    requires IsDigits(p) && AllStripped(pad, IsSpace)
    ensures KeepPorts([pad + p]) == [p]
  {
    DigitsTrimmed(p);
    StripPadded(pad, p, [], IsSpace);
    assert pad + p + [] == pad + p;
    assert [pad + p][1..] == [];
  }

  lemma ExampleTokensKept()
    ensures KeepPorts(["443", " 8080", "", " abc"]) == ["443", "8080"]
  {
    ExampleTokensKeptRejected();
    ExampleTokensKeptAccepted();
    KeepPortsAppend(["443"], [" 8080"]);
    KeepPortsAppend(["443", " 8080"], [""]);
    KeepPortsAppend(["443", " 8080", ""], [" abc"]);
    assert ["443"] + [" 8080"] + [""] + [" abc"] == ["443", " 8080", "", " abc"];
  }

  lemma LeadingSpaceStripped(w: string)
    requires IsWord(w)
    ensures Strip(" " + w, IsSpace) == w
  {
    StripPadded([' '], w, [], IsSpace);
    assert [' '] + w + [] == " " + w;
  }

  // ---------------------------------------------------------------------
  // Domain results

  /** How `resolve_domain` stores one resolved address: an IPv6 literal (one
      holding `:`) goes inside `[...]`, anything else as it is. The stored
      form holds a `:` exactly when the address does, and the lookup sees the
      address again: `strip('[]')` undoes the bracketing for every address
      that does not itself start or end with a bracket. */
  function Bracketed(a: string): (b: string)
    ensures ':' in a ==> b == "[" + a + "]"
    ensures ':' !in a ==> b == a
    ensures ':' in b <==> ':' in a
    ensures Trimmed(a, IsBracket) ==> StripBrackets(b) == a
  {
    BracketsStripOff(a);
    if ':' in a then "[" + a + "]" else a
  }

  lemma BracketsStripOff(a: string)
    ensures Trimmed(a, IsBracket) ==> StripBrackets("[" + a + "]") == a && StripBrackets(a) == a
  {
    if Trimmed(a, IsBracket) {
      StripPadded("[", a, "]", IsBracket);
      StripPadded([], a, [], IsBracket);
      assert [] + a + [] == a;
    }
  }

  /** Bracketing never merges two different addresses. */
  lemma BracketedInjective(a: string, b: string)
    requires Bracketed(a) == Bracketed(b)
    ensures a == b
  {
    if ':' in a && ':' in b {
      assert a == Bracketed(a)[1..|a| + 1];
      assert b == Bracketed(b)[1..|b| + 1];
    }
  }

  function BracketAll(raw: seq<string>): (addrs: seq<string>)
    ensures |addrs| == |raw|
    ensures forall i :: 0 <= i < |raw| ==> addrs[i] == Bracketed(raw[i])
  {
    if |raw| == 0 then [] else [Bracketed(raw[0])] + BracketAll(raw[1..])
  }

  lemma BracketedIn(x: string, raw: seq<string>)
    ensures Bracketed(x) in BracketAll(raw) <==> x in raw
  {
    var addrs := BracketAll(raw);
    if Bracketed(x) in addrs {
      var k :| 0 <= k < |addrs| && addrs[k] == Bracketed(x);
      BracketedInjective(x, raw[k]);
    }
    if x in raw {
      var k :| 0 <= k < |raw| && raw[k] == x;
      assert addrs[k] == Bracketed(x);
    }
  }

  /** Putting one more address in front adds one distinct address exactly
      when it is new. */
  lemma ElemsCons(x: string, t: seq<string>)
    ensures x in t ==> |Elems([x] + t)| == |Elems(t)|
    ensures x !in t ==> |Elems([x] + t)| == |Elems(t)| + 1
  {
    assert Elems([x] + t) == {x} + Elems(t);
    if x in t {
      assert x in Elems(t);
      assert {x} + Elems(t) == Elems(t);
    }
  }

  /** Bracketing keeps the number of distinct addresses. */
  lemma {:induction false} BracketAllDistinct(raw: seq<string>)
    ensures |Elems(BracketAll(raw))| == |Elems(raw)|
    decreases |raw|
  {
    if |raw| > 0 {
      var x, tail := raw[0], raw[1..];
      BracketAllDistinct(tail);
      assert raw == [x] + tail;
      assert BracketAll(raw) == [Bracketed(x)] + BracketAll(tail);
      ElemsCons(x, tail);
      ElemsCons(Bracketed(x), BracketAll(tail));
      BracketedIn(x, tail);
    }
  }

  /** One result line of a resolved domain: `ip:port#cc`. */
  function DomainLine(addr: string, port: string, cc: string): string {
    addr + ":" + port + "#" + cc
  }

  /** When no part holds a `#`, splitting a domain line at `#` gives
      `ip:port` and the code back. */
  lemma DomainLineSplit(addr: string, port: string, cc: string)
    requires '#' !in addr && '#' !in port && '#' !in cc
    ensures Split(DomainLine(addr, port, cc), '#') == [addr + ":" + port, cc]
  {
    SplitPair(addr + ":" + port, cc, '#');
  }

  /** The lines of one address, one per port, in port order. */
  function PortLines(addr: string, ports: seq<string>, cc: string): (lines: seq<string>)
    ensures |lines| == |ports|
    ensures forall j :: 0 <= j < |ports| ==> lines[j] == DomainLine(addr, ports[j], cc)
  {
    if |ports| == 0 then []
    else [DomainLine(addr, ports[0], cc)] + PortLines(addr, ports[1..], cc)
  }

  /** The code `resolve_domain` looks up for a stored address: the one of the
      address with its brackets stripped. */
  function AddressCountry(lookup: Lookup, addr: string): (cc: string)
    ensures |cc| > 0
    ensures Trimmed(addr, IsBracket) ==> cc == CountryCode(lookup, addr)
  {
    CountryCode(lookup, StripBrackets(addr))
  }

  /** An IPv6 address stored in brackets is looked up as the address the
      resolver gave. */
  lemma AddressCountryBracketed(lookup: Lookup, a: string)
    requires Trimmed(a, IsBracket)
    ensures AddressCountry(lookup, Bracketed(a)) == CountryCode(lookup, a)
  {
  }

  /** The address loop of `resolve_domain`: for each address in turn, its
      country code and then its port lines. */
  function Expand(addrs: seq<string>, ports: seq<string>, country: string -> string): (lines: seq<string>)
    ensures |lines| == |addrs| * |ports|
  {
    if |addrs| == 0 then []
    else
      var rest := Expand(addrs[1..], ports, country);
      assert |addrs| * |ports| == |ports| + (|addrs| - 1) * |ports|;
      PortLines(addrs[0], ports, country(addrs[0])) + rest
  }

  lemma ProductNonNegative(i: nat, k: nat)
    ensures 0 <= i * k
  {
  }

  lemma IndexAfter(a: seq<string>, b: seq<string>, m: nat)
    requires m < |b|
    ensures (a + b)[|a| + m] == b[m]
  {
  }

  lemma IndexShift(i: nat, j: nat, k: nat)
    requires i > 0
    ensures (i - 1) * k + j >= 0
    ensures i * k + j == k + ((i - 1) * k + j)
  {
    assert i * k == (i - 1) * k + k;
  }

  /** Line `i * |ports| + j` belongs to address `i` and port `j`: lines are
      grouped by address, and within a group follow the ports. */
  lemma {:induction false} ExpandAt(addrs: seq<string>, ports: seq<string>, country: string -> string, i: nat, j: nat)
    requires i < |addrs| && j < |ports|
    ensures 0 <= i * |ports| + j < |Expand(addrs, ports, country)|
    ensures Expand(addrs, ports, country)[i * |ports| + j] == DomainLine(addrs[i], ports[j], country(addrs[i]))
    decreases i
  {
    var k := |ports|;
    var head := PortLines(addrs[0], ports, country(addrs[0]));
    var rest := Expand(addrs[1..], ports, country);
    assert Expand(addrs, ports, country) == head + rest;
    if i > 0 {
      ExpandAt(addrs[1..], ports, country, i - 1, j);
      IndexShift(i, j, k);
      IndexAfter(head, rest, (i - 1) * k + j);
      assert addrs[1..][i - 1] == addrs[i];
    } else {
      assert i * k == 0;
      assert (head + rest)[j] == head[j];
    }
  }

  /** `resolve_domain` given the resolver's answer: `None` for a failed
      resolution (any exception), otherwise the raw address strings. */
  function ResolveDomain(portsConfig: Option<string>, answer: Option<seq<string>>, lookup: Lookup): (lines: seq<string>)
    ensures answer.None? ==> lines == []
  {
    match answer
    case None => []
    case Some(raw) => Expand(Addresses(raw), EffectivePorts(portsConfig), a => AddressCountry(lookup, a))
  }

  /** The addresses `resolve_domain` loops over: `sorted(all_ips)`. */
  function Addresses(raw: seq<string>): (addrs: seq<string>)
    ensures StrictlySorted(addrs)
  {
    SortDistinct(BracketAll(raw))
  }

  /** The addresses are the resolved ones, bracketed when IPv6, each once, in
      ascending order. */
  lemma AddressesSpec(raw: seq<string>)
    ensures StrictlySorted(Addresses(raw))
    ensures forall a :: a in raw ==> Bracketed(a) in Addresses(raw)
    ensures forall k :: 0 <= k < |Addresses(raw)| ==> exists a :: a in raw && Addresses(raw)[k] == Bracketed(a)
    ensures |Addresses(raw)| == |Elems(raw)|
  {
    var addrs := Addresses(raw);
    forall a | a in raw ensures Bracketed(a) in addrs {
      BracketedIn(a, raw);
    }
    forall k | 0 <= k < |addrs| ensures exists a :: a in raw && addrs[k] == Bracketed(a) {
      var b := BracketAll(raw);
      assert addrs[k] in addrs;
      assert addrs[k] in b;
      var m :| 0 <= m < |b| && b[m] == addrs[k];
      assert raw[m] in raw;
    }
    SortDistinctLength(BracketAll(raw));
    BracketAllDistinct(raw);
  }

  /** As many lines as distinct resolved addresses times ports. */
  lemma ResolveDomainCount(portsConfig: Option<string>, raw: seq<string>, lookup: Lookup)
    ensures |ResolveDomain(portsConfig, Some(raw), lookup)| == |Elems(raw)| * |EffectivePorts(portsConfig)|
  {
    AddressesSpec(raw);
  }

  /** Line `i * |ports| + j` is address `i` (in ascending order) with port
      `j`, carrying the country code of the address without brackets. */
  lemma {:induction false} ResolveDomainAt(portsConfig: Option<string>, raw: seq<string>, lookup: Lookup, i: nat, j: nat)
    requires i < |Addresses(raw)| && j < |EffectivePorts(portsConfig)|
    ensures var lines := ResolveDomain(portsConfig, Some(raw), lookup);
            var addr := Addresses(raw)[i];
            var ports := EffectivePorts(portsConfig);
            0 <= i * |ports| + j < |lines| &&
            lines[i * |ports| + j] == DomainLine(addr, ports[j], CountryCode(lookup, StripBrackets(addr)))
  {
    var addrs := Addresses(raw);
    var ports := EffectivePorts(portsConfig);
    var country := a => AddressCountry(lookup, a);
    assert ResolveDomain(portsConfig, Some(raw), lookup) == Expand(addrs, ports, country);
    ProductNonNegative(i, |ports|);
    ExpandAt(addrs, ports, country, i, j);
    assert country(addrs[i]) == CountryCode(lookup, StripBrackets(addrs[i]));
  }

  /** The domain's lines depend only on the set of resolved addresses: the
      order the resolver lists them in and how often it repeats one do not
      matter. */
  lemma ResolveOrderIrrelevant(portsConfig: Option<string>, raw1: seq<string>, raw2: seq<string>, lookup: Lookup)
    requires forall a :: a in raw1 <==> a in raw2
    ensures ResolveDomain(portsConfig, Some(raw1), lookup) == ResolveDomain(portsConfig, Some(raw2), lookup)
  {
    var s1 := Addresses(raw1);
    var s2 := Addresses(raw2);
    forall y ensures y in s1 <==> y in s2 {
      if y in s1 {
        var k :| 0 <= k < |BracketAll(raw1)| && BracketAll(raw1)[k] == y;
        BracketedIn(raw1[k], raw2);
      }
      if y in s2 {
        var k :| 0 <= k < |BracketAll(raw2)| && BracketAll(raw2)[k] == y;
        BracketedIn(raw2[k], raw1);
      }
    }
    SortedUnique(s1, s2);
  }

  // ---------------------------------------------------------------------
  // List results

  /** One result line of the remote list: `ip#cc`, no port. */
  function ListLine(token: string, cc: string): string {
    token + "#" + cc
  }

  /** When neither part holds a `#`, splitting a list line at `#` gives the
      token and the code back. */
  lemma ListLineSplit(token: string, cc: string)
    requires '#' !in token && '#' !in cc
    ensures Split(ListLine(token, cc), '#') == [token, cc]
  {
    SplitPair(token, cc, '#');
  }

  /** The token loop of `read_ip_from_url`: strip each token, skip it if
      empty, otherwise look it up as it is. */
  function TokenLines(tokens: seq<string>, lookup: Lookup): (lines: seq<string>)
    ensures |lines| <= |tokens|
  {
    if |tokens| == 0 then []
    else
      var t := Strip(tokens[0], IsSpace);
      (if |t| == 0 then [] else [ListLine(t, CountryCode(lookup, t))]) + TokenLines(tokens[1..], lookup)
  }

  /** `read_ip_from_url` given the fetched document: `None` for a failed
      request or an error status, otherwise the response text. */
  function ListResults(document: Option<string>, lookup: Lookup): (lines: seq<string>)
    ensures document.None? ==> lines == []
  {
    match document
    case None => []
    case Some(text) => TokenLines(Words(Strip(text, IsSpace)), lookup)
  }

  lemma {:induction false} TokenLinesOfWords(ws: seq<string>, lookup: Lookup)
    requires forall i :: 0 <= i < |ws| ==> IsWord(ws[i])
    ensures |TokenLines(ws, lookup)| == |ws|
    ensures forall i :: 0 <= i < |ws| ==>
              TokenLines(ws, lookup)[i] == ListLine(ws[i], CountryCode(lookup, ws[i]))
    decreases |ws|
  {
    if |ws| > 0 {
      StripPadded([], ws[0], [], IsSpace);
      assert [] + ws[0] + [] == ws[0];
      TokenLinesOfWords(ws[1..], lookup);
    }
  }

  /** One line per whitespace-separated token of the document, in document
      order, repeats kept, each `token#cc`. */
  lemma {:induction false} ListResultsLines(text: string, lookup: Lookup)
    ensures var lines := ListResults(Some(text), lookup);
            var ws := Words(text);
            && |lines| == |ws|
            && forall i :: 0 <= i < |ws| ==> lines[i] == ListLine(ws[i], CountryCode(lookup, ws[i]))
  {
    WordsOfStrip(text);
    TokenLinesOfWords(Words(text), lookup);
  }

  /** A document holding one token per line (or any other non-empty
      whitespace between tokens, such as `\r\n`) yields one `token#cc` line
      per token, in order. */
  lemma {:induction false} ListResultsSeparated(ws: seq<string>, seps: seq<string>, pre: string, post: string, lookup: Lookup)
    requires |ws| > 0 && |seps| == |ws| - 1
    requires forall i :: 0 <= i < |ws| ==> IsWord(ws[i])
    requires forall i :: 0 <= i < |seps| ==> |seps[i]| > 0 && AllStripped(seps[i], IsSpace)
    requires AllStripped(pre, IsSpace) && AllStripped(post, IsSpace)
    ensures var lines := ListResults(Some(pre + Separated(ws, seps) + post), lookup);
            && |lines| == |ws|
            && forall i :: 0 <= i < |ws| ==> lines[i] == ListLine(ws[i], CountryCode(lookup, ws[i]))
  {
    WordsSeparated(ws, seps, pre, post);
    ListResultsLines(pre + Separated(ws, seps) + post, lookup);
  }

  /** A document listing the same address twice yields two lines for it. */
  lemma ListKeepsRepeats(w: string, lookup: Lookup)
    requires IsWord(w)
    ensures ListResults(Some(w + " " + w), lookup)
            == [ListLine(w, CountryCode(lookup, w)), ListLine(w, CountryCode(lookup, w))]
  {
    var ws := [w, w];
    assert Join(ws, ' ') == w + " " + w;
    WordsJoin(ws);
    ListResultsLines(w + " " + w, lookup);
  }

  // ---------------------------------------------------------------------
  // main

  /** The configuration `main` reads from the environment: `TARGET_DOMAIN`
      and `TARGET_PORTS`, each possibly unset. */
  datatype Config = Config(domain: Option<string>, ports: Option<string>)

  /** What happens to `ip.txt`. */
  datatype FileEffect = Untouched | Overwritten(content: string)

  /** Everything `main` collects: the domain's lines when a domain is
      configured, then the list's lines. */
  function Collect(config: Config, resolve: string -> Option<seq<string>>, document: Option<string>, lookup: Lookup): (results: seq<string>)
    ensures |ListResults(document, lookup)| <= |results|
  {
    var domainLines :=
      if config.domain.Some? then ResolveDomain(config.ports, resolve(config.domain.value), lookup) else [];
    domainLines + ListResults(document, lookup)
  }

  /** The collected results are the domain's lines, when a domain is
      configured, followed by the list's lines; without a domain they are
      the list's lines alone. */
  lemma {:induction false} CollectOrder(config: Config, resolve: string -> Option<seq<string>>, document: Option<string>, lookup: Lookup)
    ensures config.domain.None? ==> Collect(config, resolve, document, lookup) == ListResults(document, lookup)
    ensures config.domain.Some? ==>
              var results := Collect(config, resolve, document, lookup);
              var list := ListResults(document, lookup);
              var domain := ResolveDomain(config.ports, resolve(config.domain.value), lookup);
              && |results| == |domain| + |list|
              && results[..|domain|] == domain
              && results[|domain|..] == list
  {
    var list := ListResults(document, lookup);
    if config.domain.None? {
      assert [] + list == list;
    } else {
      var domain := ResolveDomain(config.ports, resolve(config.domain.value), lookup);
      assert Collect(config, resolve, document, lookup) == domain + list;
      assert (domain + list)[..|domain|] == domain;
      assert (domain + list)[|domain|..] == list;
    }
  }

  /** The file text: every result followed by a newline. */
  function FileText(lines: seq<string>): (text: string)
    ensures |lines| == 0 <==> |text| == 0
  {
    if |lines| == 0 then "" else lines[0] + "\n" + FileText(lines[1..])
  }

  lemma {:induction false} FileTextJoin(lines: seq<string>)
    ensures FileText(lines) == Join(lines + [""], '\n')
    decreases |lines|
  {
    if |lines| > 0 {
      assert (lines + [""])[1..] == lines[1..] + [""];
      FileTextJoin(lines[1..]);
    }
  }

  /** The file reads back line by line as the results, in order, followed by
      the empty remainder after the final newline. */
  lemma {:induction false} FileTextLines(lines: seq<string>)
    requires forall i :: 0 <= i < |lines| ==> '\n' !in lines[i]
    ensures Split(FileText(lines), '\n') == lines + [""]
  {
    FileTextJoin(lines);
    SplitJoin(lines + [""], '\n');
  }

  /** `main` after the database is open: `resolve` stands for the resolver
      (`None` when it fails), `document` for the fetched list (`None` when
      the request fails) and `lookup` for the reader. The file is written
      exactly when there is at least one result. */
  function Run(config: Config, resolve: string -> Option<seq<string>>, document: Option<string>, lookup: Lookup): (effect: FileEffect)
    ensures effect.Untouched? <==> Collect(config, resolve, document, lookup) == []
    ensures effect.Overwritten? ==> |effect.content| > 0
  {
    var results := Collect(config, resolve, document, lookup);
    if |results| > 0 then Overwritten(FileText(results)) else Untouched
  }

  /** Whenever the file is written it holds every collected result on a line
      of its own, domain lines first, in order, and nothing else. */
  lemma {:induction false} RunFileLines(config: Config, resolve: string -> Option<seq<string>>, document: Option<string>, lookup: Lookup)
    requires var results := Collect(config, resolve, document, lookup);
             forall i :: 0 <= i < |results| ==> '\n' !in results[i]
    ensures var effect := Run(config, resolve, document, lookup);
            effect.Overwritten? ==> Split(effect.content, '\n') == Collect(config, resolve, document, lookup) + [""]
  {
    FileTextLines(Collect(config, resolve, document, lookup));
  }

  /** With no domain configured the file holds exactly the list's lines. */
  lemma {:induction false} RunWithoutDomain(config: Config, resolve: string -> Option<seq<string>>, text: string, lookup: Lookup)
    requires config.domain.None?
    requires Words(text) != []
    requires forall i :: 0 <= i < |Words(text)| ==> '\n' !in CountryCode(lookup, Words(text)[i])
    ensures Run(config, resolve, Some(text), lookup).Overwritten?
    ensures Split(Run(config, resolve, Some(text), lookup).content, '\n')
            == ListResults(Some(text), lookup) + [""]
  {
    var lines := ListResults(Some(text), lookup);
    ListResultsLines(text, lookup);
    assert Collect(config, resolve, Some(text), lookup) == lines;
    var ws := Words(text);
    forall i | 0 <= i < |lines| ensures '\n' !in lines[i] {
      assert lines[i] == ws[i] + "#" + CountryCode(lookup, ws[i]);
      assert IsWord(ws[i]);
      assert forall k :: 0 <= k < |ws[i]| ==> ws[i][k] != '\n';
    }
    FileTextLines(lines);
  }

  /** Nothing resolved and nothing listed: `ip.txt` is left as it was. */
  lemma RunNothingWritten(config: Config, resolve: string -> Option<seq<string>>, document: Option<string>, lookup: Lookup)
    requires config.domain.Some? ==> resolve(config.domain.value) in {None, Some([])}
    requires document.Some? ==> Words(document.value) == []
    ensures Run(config, resolve, document, lookup) == Untouched
  {
    if document.Some? {
      ListResultsLines(document.value, lookup);
    }
  }

  /** An end-to-end example: the domain resolves to 5.6.7.8 and 1.2.3.4 (the
      first one twice), ports are unset, both addresses map to US, and the
      list fetch fails. */
  lemma {:induction false} RunExample(lookup: Lookup)
    requires lookup("1.2.3.4") == Record(Some("US")) && lookup("5.6.7.8") == Record(Some("US"))
    ensures Run(Config(Some("example.org"), None), _ => Some(["5.6.7.8", "1.2.3.4", "5.6.7.8"]), None, lookup)
            == Overwritten("1.2.3.4:443#US\n5.6.7.8:443#US\n")
  {
    var raw := ["5.6.7.8", "1.2.3.4", "5.6.7.8"];
    var lines := ["1.2.3.4:443#US", "5.6.7.8:443#US"];
    ExampleAddresses();
    DefaultPortsUsed(None);
    ExampleExpand(lookup);
    assert ResolveDomain(None, Some(raw), lookup) == lines;
    assert Collect(Config(Some("example.org"), None), _ => Some(raw), None, lookup) == lines;
    ExampleFileText();
  }

  lemma ExampleAddresses()
    ensures Addresses(["5.6.7.8", "1.2.3.4", "5.6.7.8"]) == ["1.2.3.4", "5.6.7.8"]
  {
    var raw := ["5.6.7.8", "1.2.3.4", "5.6.7.8"];
    assert ':' !in "1.2.3.4" && ':' !in "5.6.7.8";
    assert BracketAll(raw) == raw;
    assert "1.2.3.4"[0] == '1' && "5.6.7.8"[0] == '5';
    assert Less("1.2.3.4", "5.6.7.8");
    assert StrictlySorted(["1.2.3.4", "5.6.7.8"]);
    SortedUnique(Addresses(raw), ["1.2.3.4", "5.6.7.8"]);
  }

  lemma ExampleCountry(lookup: Lookup, addr: string)
    requires |addr| > 0 && IsAsciiDigit(addr[0]) && IsAsciiDigit(addr[|addr| - 1])
    requires lookup(addr) == Record(Some("US"))
    ensures AddressCountry(lookup, addr) == "US"
  {
    StripPadded([], addr, [], IsBracket);
    assert [] + addr + [] == addr;
  }

  lemma ExampleExpand(lookup: Lookup)
    requires lookup("1.2.3.4") == Record(Some("US")) && lookup("5.6.7.8") == Record(Some("US"))
    ensures Expand(["1.2.3.4", "5.6.7.8"], ["443"], a => AddressCountry(lookup, a))
            == ["1.2.3.4:443#US", "5.6.7.8:443#US"]
  {
    var addrs := ["1.2.3.4", "5.6.7.8"];
    assert "1.2.3.4"[0] == '1' && "5.6.7.8"[0] == '5';
    ExampleCountry(lookup, "1.2.3.4");
    ExampleCountry(lookup, "5.6.7.8");
    assert addrs[1..] == ["5.6.7.8"];
    assert DomainLine("1.2.3.4", "443", "US") == "1.2.3.4:443#US";
    assert DomainLine("5.6.7.8", "443", "US") == "5.6.7.8:443#US";
  }

  lemma ExampleFileText()
    ensures FileText(["1.2.3.4:443#US", "5.6.7.8:443#US"]) == "1.2.3.4:443#US\n5.6.7.8:443#US\n"
  {
    var lines := ["1.2.3.4:443#US", "5.6.7.8:443#US"];
    assert lines[1..] == ["5.6.7.8:443#US"];
    assert lines[1..][1..] == [];
  }
}
