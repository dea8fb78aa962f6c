# ip.py as Dafny: address lists annotated with country codes

`ip.py` builds a file `ip.txt` of network addresses annotated with a
two-letter country code. Results come from two sources:

- **Domain results.** The addresses of a configured domain (`TARGET_DOMAIN`),
  crossed with the configured ports (`TARGET_PORTS`). Each line is
  `addr:port#cc`.
- **List results.** The whitespace-separated tokens of a remote text list.
  Each line is `token#cc`.

The country code comes from a GeoIP lookup. It falls back to `XX`. The file
also defines an IPv4 dotted-quad validator, `is_valid_ip`, which nothing else
in the file calls.

This project models the pure string processing of that pipeline as Dafny
functions over immutable strings and sequences, and proves what each step
promises. The modules follow the program's structure:

- `Optional` — `Option<T>`. It stands for an unset environment variable, a
  failed resolution or request, and an absent record field.
- `PyText` — the Python `str` operations the program depends on:
  - `isspace`, `strip(chars)`, `split(sep)` and `split()`;
  - `isdigit` over ASCII;
  - `int()` in base 10, including its leniency and its limits: it skips
    surrounding whitespace (the `isspace` characters other than
    U+001C..U+001F, which CPython's `int()` does not skip), takes a `+`/`-`
    sign and `_` between digits, and refuses more than 4300 digits.

  They are stated once here and reused everywhere else.
- `StrOrder` — Python's `<` on `str` (code-point lexicographic order) and
  `sorted(set(...))`.
- `Geo` — `get_country_code` over an abstract lookup. The lookup is
  `string -> LookupOutcome`: it either raises or returns a record whose ISO
  code may be absent.
- `IpCheck` — `is_valid_ip`.
- `Enrich` — the rest of the program logic:
  - port parsing with the `"443"` fallback;
  - bracketing, deduplication and sorting of resolved addresses;
  - the address × port line expansion;
  - list tokenising;
  - how `main` concatenates the two result lists and decides whether to write
    `ip.txt`.

External effects are parameters:

- The DNS answer is `Option<seq<string>>`. `None` stands for any exception
  `resolve_domain` catches.
- The fetched list is `Option<string>`. `None` stands for any exception
  `read_ip_from_url` catches, including an error status.
- The GeoIP reader is the `Lookup` function.
- The environment is a `Config` of two optional strings.
- The file write is the `FileEffect` value that `Run` returns: `Untouched`,
  or `Overwritten(content)`.

`is_valid_ip` uses `ip.strip('[]')`, which removes every `[` and `]` at
either end, in any number and without checking that they pair up. So
`[[1.2.3.4]` and `1.2.3.4]]` are valid as well as `[1.2.3.4]`
(`IpCheck.DottedQuadValid`).

The validator is as lenient as Python's `int()`:

- whitespace that `int()` skips around a part is accepted
  (`IpCheck.OctetPadded`), but an information separator such as U+001C is
  not (`IpCheck.SeparatorRejected`);
- `-0` counts as an octet, and so do `-00` and `-0_0`, which `int()` also
  reads as 0 (`IpCheck.OctetNegative` covers `-` followed by `str(n)`);
- `1_0` counts as 10;
- a part of more than 4300 digits is refused, even if it is all zeros
  (`IpCheck.TooManyDigitsRejected`).

## Model

| member | source | states |
|---|---|---|
| PyText.IsSpace | ip.py:107 | no whitespace character is a digit, a dot, a comma, `#`, `:` or a bracket, so `strip()` and `split()` never cut into an address, a port or a separator |
| PyText.Strip | ip.py:17 | `strip` never lengthens the text (what it removes is pinned down by `PyText.StripParts` and `PyText.StripPadded`) |
| PyText.StripParts | ip.py:17 | `strip` only removes characters from the chosen set, and only at the ends: the input is the result with padding of such characters on either side, and the result starts and ends with a character outside the set |
| PyText.StripPadded | ip.py:17 | `strip` removes all of the padding, however long the run: a core with no stripped character at either end comes back unchanged |
| PyText.StripIdempotent | ip.py:111 | stripping twice is stripping once, for every set of stripped characters |
| PyText.Split | ip.py:19 | `split(sep)` gives one more part than there are separators, no part holds the separator, and joining the parts with the separator restores the text |
| PyText.SplitJoin | ip.py:19 | splitting undoes joining for separator-free parts; with `Split`'s own contract the two are inverses |
| PyText.Words | ip.py:107 | every token of `split()` is non-empty and free of whitespace, and a text starting with a non-whitespace character yields a first token starting with that character |
| PyText.WordsConcat | ip.py:107 | the tokens of `split()`, put back together, are exactly the non-whitespace characters of the text, in order |
| PyText.WordsOfStrip | ip.py:107 | `text.strip().split()` tokenises exactly like `text.split()` |
| PyText.WordsJoin | ip.py:107 | `split()` undoes joining words with single spaces: the tokens come back in order, repeats kept |
| PyText.WordsSeparated | ip.py:107 | `split()` gives back exactly the words of a document that writes them between any non-empty runs of whitespace (newlines, `\r\n`, tabs, blank lines), with any whitespace before the first and after the last |
| PyText.DigitsPlain | ip.py:64 | a token `isdigit` accepts has no whitespace at its ends and holds no comma, dot or `#`, so it passes through `strip()` and `split(',')` whole |
| PyText.ParseInt | ip.py:24 | `int('')` is never a number: only a non-empty text can parse |
| PyText.IsIntSpace | ip.py:24 | among ASCII characters `int()` skips exactly space, tab, newline, vertical tab, form feed and carriage return, not U+001C..U+001F; beyond ASCII it skips exactly the characters `isspace` accepts |
| PyText.ParseIntSign | ip.py:24 | a text starting with `-` never parses to a positive number, one starting with a digit never to a negative one |
| PyText.ParseIntNeedsDigit | ip.py:24 | the ASCII-digit `int()` modelled here refuses every text that has no ASCII digit |
| PyText.ParseIntDecimal | ip.py:24 | `int(str(n)) == n` for every natural number of at most 4300 digits, with any whitespace `int()` skips around the digits; with more digits `int()` refuses |
| PyText.ParseIntNegated | ip.py:24 | `int("-" + str(n)) == -n` within the same digit limit, with any whitespace `int()` skips around; refused beyond it |
| PyText.TooManyDigits | ip.py:24 | a digit string longer than 4300 characters is refused, even when it is all zeros |
| PyText.SeparatorNotIntSpace | ip.py:24 | U+001C is whitespace to `isspace` but not to `int()`, so `int("\x1c" + digits)` is refused |
| StrOrder.Less | ip.py:82 | the string order used by `sorted` never puts a string before itself or an equal string |
| StrOrder.LessTotal | ip.py:82 | two different strings are always ordered one way or the other, so `sorted` has one answer |
| StrOrder.LessTransitive | ip.py:82 | the string order is transitive |
| StrOrder.Insert | ip.py:82 | inserting into a strictly ascending sequence keeps it strictly ascending, and adds exactly the new element |
| StrOrder.SortDistinct | ip.py:82 | `sorted(set(xs))` is strictly ascending and holds exactly the elements of `xs` |
| StrOrder.SortedUnique | ip.py:82 | two strictly ascending sequences with the same elements are equal, so the sorted order does not depend on how the set was built |
| StrOrder.SortedLength | ip.py:82 | a strictly ascending sequence has no repeats: its length is its number of distinct elements |
| Geo.CountryCode | ip.py:46-52 | the code is never empty. It is the record's ISO code when the lookup returns a record with a non-empty code, and `XX` in every other case: a raised lookup, an absent code, or an empty code |
| IpCheck.IsValidIp | ip.py:13-26 | once its brackets are stripped, a valid address has exactly three dots and at least seven characters |
| IpCheck.StripBrackets | ip.py:17 | `strip('[]')` never lengthens the text, leaves no bracket at either end, and returns a text with no bracket at its ends unchanged |
| IpCheck.IsOctet | ip.py:24 | for the ASCII-digit `int()` modelled here, a part that passes the 0..255 check is non-empty and holds an ASCII digit |
| IpCheck.ValidIpIff | ip.py:13-26 | for any dot-free parts whose dot-join is the bracket-stripped input, the validator holds exactly when there are four parts and each parses to an integer in 0..255; every other input gives false rather than an error |
| IpCheck.WrongDotCount | ip.py:19-22 | an input with other than three dots after bracket stripping is rejected |
| IpCheck.OctetDecimal | ip.py:24 | `str(n)` passes the 0..255 check exactly when `n <= 255` |
| IpCheck.OctetPadded | ip.py:24 | a part padded with whitespace that `int()` skips passes exactly when its number is at most 255 |
| IpCheck.OctetNegative | ip.py:24 | `-` followed by `str(n)`, with any whitespace `int()` skips around it, passes only for n = 0 |
| IpCheck.FirstPartUnreadable | ip.py:24-26 | a non-empty, dot-free first part that does not start with a bracket and that `int()` cannot read, followed by `.0.0.0`, makes the address invalid although the other parts are in range: the `ValueError` becomes `False` |
| IpCheck.SeparatorRejected | ip.py:13-26 | `\x1c1.0.0.0` is not valid, because `int()` does not skip U+001C |
| IpCheck.TooManyDigitsRejected | ip.py:13-26 | a digit string of more than 4300 digits followed by `.0.0.0` is not a valid address |
| IpCheck.DottedQuadStripped | ip.py:17 | a run of brackets of any length on either side of `a.b.c.d` is removed, and nothing else is |
| IpCheck.DottedQuadValid | ip.py:13-24 | every `a.b.c.d` with all four numbers at most 255 is valid, bare or inside any run of brackets |
| IpCheck.OctetTooLarge | ip.py:19-24 | a dotted quad with any number above 255 is rejected, whichever position it is in |
| Enrich.KeepPorts | ip.py:64 | the kept ports are never more than the tokens, and each is a non-empty string of ASCII digits |
| Enrich.KeepPortsAppend | ip.py:64 | filtering works token by token: it keeps order and repeats, and the ports of a concatenation are the concatenated ports |
| Enrich.KeepPortsOfDigits | ip.py:64 | tokens that are already digit strings all survive, unchanged |
| Enrich.ParsePorts | ip.py:63-64 | at most one port per comma-separated token, each a digit string |
| Enrich.ParsePortsJoin | ip.py:63-64 | a comma-joined `TARGET_PORTS` value parses to the trimmed tokens that are all digits, in the original order |
| Enrich.ParsePortsRoundTrip | ip.py:63-64 | digit-string ports joined with commas parse back to exactly themselves, duplicates kept, with no 1..65535 range check |
| Enrich.EffectivePorts | ip.py:63-68 | the effective port list is never empty, and every entry is a digit string |
| Enrich.EffectivePortsCases | ip.py:63-68 | the effective ports are the parsed ones when any survive. They are `["443"]` exactly when no token survives or the only survivor is `443` itself, so the fallback cannot be told apart from configuring 443 |
| Enrich.DefaultPortsUsed | ip.py:63-68 | an unset `TARGET_PORTS`, or one whose tokens are all rejected, gives `["443"]` |
| Enrich.PortsExample | ip.py:63-68 | `TARGET_PORTS="443, 8080,, abc"` gives `["443", "8080"]` |
| Enrich.Bracketed | ip.py:76-83 | an address holding `:` is stored with one `[` before and one `]` after, any other as it is; the stored form holds `:` exactly when the address does; and `strip('[]')` gives the address back to the lookup whenever the address does not itself start or end with a bracket |
| Enrich.BracketedInjective | ip.py:76-79 | bracketing never merges two different addresses |
| Enrich.BracketedIn | ip.py:72-79 | an address is in the stored set exactly when it was resolved |
| Enrich.BracketAll | ip.py:74-79 | one stored address per resolved address, in order: the address inside `[` and `]` when it holds `:`, as it is otherwise |
| Enrich.BracketAllDistinct | ip.py:72-79 | bracketing keeps the number of distinct addresses |
| Enrich.PortLines | ip.py:84-86 | one line per port, in port order, each `addr:port#cc` |
| Enrich.DomainLineSplit | ip.py:85 | splitting a line `ip:port#cc` at `#` gives `ip:port` and the code back when no part holds a `#` |
| Enrich.AddressCountry | ip.py:83 | the looked-up code is never empty, and an address with no bracket at its ends is looked up as it is |
| Enrich.AddressCountryBracketed | ip.py:76-83 | an IPv6 address stored as `[a]` is looked up as `a`, the address the resolver gave |
| Enrich.Expand | ip.py:81-86 | the loop emits exactly addresses × ports lines |
| Enrich.ExpandAt | ip.py:81-86 | line `i * P + j` (where `P` is the number of ports) is address `i` with port `j` and that address's code: lines are grouped by address, and within a group follow the port order |
| Enrich.ResolveDomain | ip.py:91-96 | a failed resolution, of any kind, gives no lines |
| Enrich.Addresses | ip.py:72-82 | the addresses the loop visits are strictly ascending, hence free of repeats |
| Enrich.AddressesSpec | ip.py:72-82 | the looped-over addresses are strictly ascending, include every resolved address once in its stored form, and contain nothing else |
| Enrich.ResolveDomainCount | ip.py:72-86 | a domain yields (distinct resolved addresses) × (effective ports) lines |
| Enrich.ResolveDomainAt | ip.py:81-86 | line `i * P + j` is `addr:port#cc`, where `addr` is the `i`-th address in ascending order, `port` is the `j`-th port, and `cc` is the code of `addr` with its brackets stripped |
| Enrich.ResolveOrderIrrelevant | ip.py:71-82 | the domain's lines depend only on the set of resolved addresses, not on the resolver's order or repeats |
| Enrich.TokenLines | ip.py:110-118 | the token loop never yields more lines than there are tokens |
| Enrich.TokenLinesOfWords | ip.py:110-118 | on `split()` tokens the loop skips nothing: one `token#cc` line per token, in order |
| Enrich.ListLineSplit | ip.py:117 | splitting a line `ip#cc` at `#` gives the token and the code back when neither holds a `#` |
| Enrich.ListResults | ip.py:123-128 | a failed fetch, of any kind, gives no lines |
| Enrich.ListResultsLines | ip.py:107-118 | one line per whitespace-separated token of the document, in document order, each `token#cc` with the token's own code, repeats kept, and no port segment |
| Enrich.ListResultsSeparated | ip.py:107-118 | a document with one address per line (or any other non-empty whitespace between tokens) yields one `token#cc` line per address, in order |
| Enrich.ListKeepsRepeats | ip.py:107-118 | a token listed twice yields two lines |
| Enrich.Collect | ip.py:159-168 | the collected results are never fewer than the list's lines |
| Enrich.CollectOrder | ip.py:159-168 | without a domain the results are exactly the list's lines; with one, the domain's lines followed by the list's lines, nothing between and nothing after |
| Enrich.FileText | ip.py:172-174 | the file text is empty exactly when there are no results |
| Enrich.FileTextLines | ip.py:172-174 | the file reads back, split at newlines, as the results in order, followed by the empty remainder after the final newline |
| Enrich.Run | ip.py:171-174 | `ip.txt` is overwritten exactly when the collected results are non-empty, and what is written is then non-empty |
| Enrich.RunFileLines | ip.py:159-174 | a written file holds every collected result on its own line, with the domain lines (only when a domain is configured) before the list lines, and nothing else |
| Enrich.RunWithoutDomain | ip.py:139-174 | with no domain configured and a non-empty list, the file holds exactly the list's lines |
| Enrich.RunNothingWritten | ip.py:159-171 | nothing resolved and no tokens listed leave `ip.txt` as it was |
| Enrich.RunExample | ip.py:155-174 | a domain resolving to `5.6.7.8`, `1.2.3.4`, `5.6.7.8` with unset ports, both addresses in US, and a failed list fetch produce `1.2.3.4:443#US\n5.6.7.8:443#US\n` |

## Left out

- Network, filesystem and process effects are not modelled:
  - `download_mmdb`, `ensure_dir`, `requests.get`, `raise_for_status`,
    `sys.exit`, the `print` logging, opening and closing the GeoIP reader,
    and the MMDB format;
  - `load_dotenv` and the environment reads.

  They only feed or report the pure logic. Their outcomes enter the model as
  the parameters listed above.
- `socket.getaddrinfo` is not modelled. Only its answer is, as a sequence of
  address strings, or `None` for any failure. The `gaierror` and
  other-exception branches of `resolve_domain` both return `[]`, so they are
  one case.
- Decoding the HTTP response body into text is not modelled. The fetched
  document is given as text.
- Encoding `ip.txt` as UTF-8 is not modelled, nor is a failure to open or
  write it. `Run` returns the file's text, not its bytes.
- The re-checks of `TARGET_DOMAIN` in `main` (ip.py:142-144, ip.py:160-161)
  are not modelled. The first can never fire. The second re-reads the same
  environment, so the model reads the domain once, as `Config.domain`.
- Geo.CountryCode: the lookup is a total function of the address text, so it
  cannot model a reader that answers the same address differently over time.
  A record whose ISO code is present but empty is treated like a missing one,
  as Python's `or` does.
- PyText.ParseInt: the digit limit is the default of 4300 digits from Python
  3.11 and the matching security releases. A limit changed through
  `sys.set_int_max_str_digits` or `PYTHONINTMAXSTRDIGITS`, and older
  interpreters that have no limit, are not modelled.
- PyText.ParseInt: only ASCII digits are accepted. Python's `int()` also
  accepts other Unicode decimal digits, such as Arabic-Indic digits, which
  are not modelled.
- PyText.ParseIntNeedsDigit: holds for the ASCII-digit model only. In
  Python, `int('٣')` is 3, so a text with no ASCII digit can still be read.
- IpCheck.IsOctet: a passing part holds an ASCII digit only in the model. In
  Python, `is_valid_ip('٣.٣.٣.٣')` is true although no part has one.
- Enrich.KeepPorts: `isdigit` is modelled over ASCII `0`-`9` only. Python
  also accepts other Unicode digit characters.
- Python strings may hold lone surrogate code points. Dafny's `char` cannot,
  so such strings are outside the model.
