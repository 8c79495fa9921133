# orb: colour conversion, the Bitwarden pull-request helper, and errors

This project is a Dafny model of three parts of `orb`, a small command-line
toolbox written in Rust. It proves properties of each part.

- **`colorx`** takes a colour written in hex (`#fff`, `#A0b1C2`) or in RGB
  notation (`rgb(255, 0, 10)`, `255 0 10`, `255,0,10`). It says which notation
  it recognised and converts the colour to the other one.
  - Hex is tried first, then RGB. Anything else gets an "unrecognized" notice.
  - A hex string converts to `rgb(r, g, b)`.
  - An RGB string converts to `#RRGGBB` in upper-case digits.
- **`bitwarden-pr`** runs inside a clone of a Bitwarden repository. It:
  - reads the current branch and finds the ticket named in it, such as `/AB-1234/`;
  - fills the tracking section of the pull-request template with a Jira link;
  - opens GitHub's compare page, with title `[AB-1234]` and the filled template as body.
- **`errors`** defines the one error type: a message for the user plus optional technical details. Displaying an error shows only the message.

Modules:

- `text.dfy` (`Text`): character classes, digit values, and the `{}` and `{:02X}` renderings of numbers.
- `rust_str.dfy` (`RustStr`): the Rust string operations the code calls, each written out on `seq<char>`:
  - `contains`, `replace`, `trim_start_matches`, `trim`, `split_whitespace`;
  - `u8::from_str_radix` and `parse::<u8>`;
  - `join`.
- `errors.dfy` (`Errors`): `ErrorWithContext` and `Result`.
- `colorx.dfy` (`Colorx`): the two recognisers, the two converters and the classification done by `run`.
- `bitwarden_pr.dfy` (`BitwardenPr`): repository detection, the branch, the ticket, the description, the URL, and `run`. Anything that touches git, the file system or a process is a parameter here.

Modelling decisions:

- **Regular expressions are written out as functions or predicates.**
  - The hex pattern is a predicate on the end of the string.
  - The RGB pattern is a deterministic parser, `Colorx.ParseRgb`, whose result is a spelling (`RgbSpelling`). `Colorx.Spell` writes a spelling back out as text. The parser is proved sound and complete against `Spell`, so `IsRgbValue(s)` holds exactly when `s` is the spelling of a valid value.
  - The ticket pattern is a leftmost search for a match predicate, `TicketAt`.
- **Panics become values.** A panic is `None` from a converter, or the `Panic` or `Panicked` outcome of a `run`.
- **Where the code and its description disagree, the model follows the code.**
  - `convert_hex_to_rgb` does not demand exactly three or six hex digits after the `#`s.
    - With three characters it doubles each one.
    - With six or more it reads the first three pairs and ignores the rest, so `abcdef#abc` converts to `rgb(171, 205, 239)`.
    - `from_str_radix` accepts a leading `+`, so a pair like `+f` converts as well.
  - The source tests `raw_hex.len()`, which counts bytes; the model counts characters. The two give the same result on every input, as far as panics go.
    - On every input where the Rust code does not panic, the characters it reads are ASCII, which is one byte each.
    - On every other input both versions panic (`None`).
- **Unreachable in this snapshot.** `src/commands/mod.rs` has no `colorx` module, and `src/main.rs` dispatches only `clean`. Neither subcommand can be reached from `main` in this snapshot, so both are modelled on their own.

## Model

| member | source | states |
|---|---|---|
| Errors.New | src/errors.rs:10-19 | the message is stored unchanged; absent details stay absent, present details keep their value |
| Errors.Display | src/errors.rs:22-26 | the `Display` text of an error: its user message alone; `DisplayOfNew` and `DisplayHidesDetails` state what it shows |
| Errors.DisplayOfNew | src/errors.rs:22-26 | an error built with `new` displays exactly the message it was given |
| Errors.DisplayHidesDetails | src/errors.rs:22-26 | two errors with the same message display the same, whatever their details |
| Colorx.IsHexValue | src/commands/colorx/mod.rs:14-17 | `is_hex_value`: the string ends in `#` plus 3 or 6 hex digits; `IsHexValueIsEndAnchoredSearch` ties it to the unanchored search, and `HexValueAccepts`, `HexValueAcceptsPrefixed` and `HexValueRejects` fix instances |
| Colorx.IsHexValueIsEndAnchoredSearch | src/commands/colorx/mod.rs:14-17 | `is_hex_value` holds iff some suffix of the string is `#` plus 3 or 6 hex digits (the pattern is anchored at the end only) |
| Colorx.HexValueAccepts | src/commands/colorx/mod.rs:14-17 | `#fff` and `#A0b1C2` are hex values |
| Colorx.HexValueAcceptsPrefixed | src/commands/colorx/mod.rs:14-17 | `x#fff` and `##abc` are hex values too: text before the token is not checked |
| Colorx.HexValueRejects | src/commands/colorx/mod.rs:14-17 | `#ab`, `#abcd` and `abc` are not hex values |
| Colorx.FromStrRadixU8HexPair | src/commands/colorx/mod.rs:48-50 | `u8::from_str_radix(p, 16)` accepts a two-character `p` iff it is two hex digits or `+` and one hex digit; for two hex digits the value is their hex value |
| Colorx.FromStrRadixU8Doubled | src/commands/colorx/mod.rs:36-38 | a doubled character parses as hex iff the character is a hex digit |
| Colorx.HexComponents | src/commands/colorx/mod.rs:33-50 | the three channel values read from the hex digits are bytes |
| Colorx.HexComponentsOfThree | src/commands/colorx/mod.rs:33-39 | three characters convert iff all three are hex digits |
| Colorx.HexComponentsOfSix | src/commands/colorx/mod.rs:40-50 | six or more characters convert iff each of the first three pairs parses as a hex byte |
| Colorx.ConvertHexToRgb | src/commands/colorx/mod.rs:30-53 | `convert_hex_to_rgb`, with `None` for a panic: strip the leading `#`s, read the channels with `HexComponents`, print `rgb(r, g, b)`; `ConvertHexToRgbDefined` gives the exact no-panic condition, `SixDigitHexToRgb` and `ThreeDigitHexExpands` the values, `ConvertHexToRgbRecognised` that every output is an RGB value |
| Colorx.ConvertHexToRgbDefined | src/commands/colorx/mod.rs:30-53 | `convert_hex_to_rgb` returns without panicking iff, after stripping every leading `#`, three hex digits remain, or at least six characters remain whose first three pairs parse |
| Colorx.SixDigitHexToRgb | src/commands/colorx/mod.rs:30-53 | `#` plus six hex digits converts to `rgb(r, g, b)` with r, g, b the values of the three pairs |
| Colorx.ThreeDigitHexExpands | src/commands/colorx/mod.rs:33-39 | `#abc` converts, and to the same result as `#aabbcc` |
| Colorx.IsComponentIsAlternation | src/commands/colorx/mod.rs:24 | a component is exactly a match of one of the three alternatives `25[0-5]`, `2[0-4][0-9]` and `[01]?[0-9]?[0-9]` |
| Colorx.ParseRgb | src/commands/colorx/mod.rs:20-26 | the RGB pattern as a deterministic parser returning the spelling it accepted; `ParseRgbSound` and `ParseRgbComplete` prove it sound and complete against `Spell` |
| Colorx.IsRgbValue | src/commands/colorx/mod.rs:20-26 | `is_rgb_value`: the parser accepts the string; `IsRgbValueIff` characterises it by the valid spellings in both directions |
| Colorx.ParseRgbSound | src/commands/colorx/mod.rs:20-26 | whatever the RGB parser accepts is a valid spelling that writes back out to exactly the input |
| Colorx.ParseRgbComplete | src/commands/colorx/mod.rs:20-26 | every valid spelling is parsed back to itself |
| Colorx.IsRgbValueIff | src/commands/colorx/mod.rs:20-26 | `is_rgb_value(s)` iff `s` is the spelling of a valid RGB value: optional `rgb(`, an optional space, three components separated either all by commas (each optionally followed by a space) or all by single spaces, then an optional `)` |
| Colorx.RgbValueExamples | src/commands/colorx/mod.rs:20-26 | `rgb(255, 0, 10)`, `255 0 10`, `255,0,10`, `rgb(007 8 9)` and ` 1, 2,3)` are accepted |
| Colorx.RgbValueRejects | src/commands/colorx/mod.rs:20-26 | `256,0,0`, `rgb(1,2)` and the mixed separators of `1, 2 3` are refused |
| Colorx.ParseBytes | src/commands/colorx/mod.rs:72-75 | the `filter_map` keeps at most one value per token, each a byte |
| Colorx.GetRgbComponents | src/commands/colorx/mod.rs:63-78 | when it does not panic, `get_rgb_components` yields three bytes |
| Colorx.UnwrapSpelling | src/commands/colorx/mod.rs:64-67 | removing `rgb`, `(` and `)` from a valid spelling leaves the optional leading space and the components with their separators |
| Colorx.SanitizeSpelling | src/commands/colorx/mod.rs:64-70 | after commas become spaces and the ends are trimmed, a valid spelling becomes its components separated by whitespace only |
| Colorx.SplitSpelling | src/commands/colorx/mod.rs:72-73 | `split_whitespace` of that text gives exactly the three component texts, in order |
| Colorx.ComponentsOfSpelling | src/commands/colorx/mod.rs:63-78 | on every valid spelling `get_rgb_components` returns the three component values, in order |
| Colorx.RecognisedRgbComponents | src/commands/colorx/mod.rs:63-78 | on every string `is_rgb_value` accepts, `get_rgb_components` returns the values of the parsed components |
| Colorx.HexTextShape | src/commands/colorx/mod.rs:58 | `#{:02X}{:02X}{:02X}` is `#` plus six upper-case hex digits; pair i holds channel i, and the result is a hex value |
| Colorx.ConvertRgbToHex | src/commands/colorx/mod.rs:56-59 | `convert_rgb_to_hex`, with `None` for a panic in `get_rgb_components`: the `#{:02X}{:02X}{:02X}` rendering of the three components; `ConvertRgbToHexShape`, `RgbTextToHex` and `RgbRoundTrip` state its result |
| Colorx.ConvertRgbToHexShape | src/commands/colorx/mod.rs:56-59 | a successful `convert_rgb_to_hex` is that rendering of the components, and it is a hex token |
| Colorx.CanonicalSpellingValid | src/commands/colorx/mod.rs:52 | the spelling `format!("rgb({}, {}, {})")` produces is valid and carries the given values |
| Colorx.CanonicalSpellingText | src/commands/colorx/mod.rs:52 | that spelling writes out as `rgb(r, g, b)` |
| Colorx.ConvertHexToRgbRecognised | src/commands/colorx/mod.rs:30-53 | every output of `convert_hex_to_rgb` is accepted by `is_rgb_value` and reads back as the channel values of the hex input |
| Colorx.RgbTextToHex | src/commands/colorx/mod.rs:56-59 | `rgb(r, g, b)` converts to `#` with r, g and b in two upper-case hex digits each |
| Colorx.HexTextToRgb | src/commands/colorx/mod.rs:30-53 | `#RRGGBB` output converts back to `rgb(r, g, b)` |
| Colorx.RgbRoundTrip | src/commands/colorx/mod.rs:30-59 | for all bytes r, g, b: `convert_hex_to_rgb(convert_rgb_to_hex("rgb(r, g, b)")) == "rgb(r, g, b)"` |
| Colorx.HexRoundTrip | src/commands/colorx/mod.rs:30-59 | for six hex digits d: converting `#d` to RGB and back gives `#` plus d upper-cased |
| Colorx.HexAndRgbDisjoint | src/commands/colorx/mod.rs:14-26 | no string is both a hex value and an RGB value (only hex contains `#`) |
| Colorx.Classify | src/commands/colorx/mod.rs:83-92 | the conversion `run` chooses for the joined text: hex first, then RGB, otherwise unrecognised; `ClassifyOutcomes` states each case and when it panics |
| Colorx.Run | src/commands/colorx/mod.rs:80-98 | `run`: join the arguments with a space and classify the result; every outcome but `Panic` stands for the `Ok(())` return; `RunExamples` fixes two instances |
| Colorx.ClassifyOutcomes | src/commands/colorx/mod.rs:80-98 | `run` reports "unrecognized" iff neither recogniser accepts; it converts to hex iff `is_rgb_value` accepts, and that conversion never panics; every hex conversion is accepted by the RGB recogniser; a panic needs a hex value that is not a bare hex token |
| Colorx.ClassificationOrderIrrelevant | src/commands/colorx/mod.rs:83-92 | trying RGB before hex would classify every input the same, since the two recognisers are disjoint |
| Colorx.RgbSpellingClassified | src/commands/colorx/mod.rs:80-98 | every valid RGB spelling is converted to the hex rendering of its components |
| Colorx.RunExamples | src/commands/colorx/mod.rs:80-98 | arguments `255 0 10` and `rgb(255, 0, 10)` (as separate arguments, joined with spaces) both convert to `#FF000A` |
| Colorx.UnanchoredHexMisconverts | src/commands/colorx/mod.rs:15 | as written: `x#fff` is accepted as hex and then panics in the converter, slicing `[4..6]` of its five characters; `xy#fff` is accepted and panics on `from_str_radix("xy", 16)`; `abcdef#abc` is accepted and converted to `rgb(171, 205, 239)`, the reading of its first six characters |
| Colorx.AnchoredHexConverts | src/commands/colorx/mod.rs:15 | corrected: every string that is exactly `#` plus 3 or 6 hex digits converts without panicking to a recognised RGB value |
| Colorx.ClassifyAnchoredNeverPanics | src/commands/colorx/mod.rs:80-98 | corrected: with the pattern anchored at both ends, the classification never panics, and it agrees with the written one wherever the written pattern does not over-accept |
| BitwardenPr.GetBitwardenRepo | src/commands/bitwarden_pr/mod.rs:21-31 | the answer is one of the three Bitwarden URLs, and only when an `origin` remote with a readable URL exists |
| BitwardenPr.GetBitwardenRepoOrder | src/commands/bitwarden_pr/mod.rs:25-30 | clients iff the URL mentions `bitwarden/clients`; server iff it does not but mentions `bitwarden/server`; SDK iff it mentions neither but mentions `bitwarden/sdk-internal`; none iff it mentions none of them |
| BitwardenPr.GetBitwardenRepoMissing | src/commands/bitwarden_pr/mod.rs:22-23 | no `origin` remote, or one without a readable URL, gives no repository |
| BitwardenPr.ClientsRemote | src/commands/bitwarden_pr/mod.rs:26 | any remote URL containing `bitwarden/clients` selects the clients repository |
| BitwardenPr.GetBranchName | src/commands/bitwarden_pr/mod.rs:34-46 | a head failure gives "Unable to retrieve git head" with its message as details; a missing shorthand gives "Error getting branch shorthand name" with no details; otherwise the shorthand comes back unchanged |
| BitwardenPr.MatchAt | src/commands/bitwarden_pr/mod.rs:50 | reports a match of `/[A-Za-z]{2}-[0-9]{1,5}/` at a position exactly when there is one, with its digit count |
| BitwardenPr.FindTicket | src/commands/bitwarden_pr/mod.rs:50-51 | the search returns the leftmost match, and reports none only when there is no match at all |
| BitwardenPr.GetTicketFromBranch | src/commands/bitwarden_pr/mod.rs:49-56 | `get_ticket_from_branch`: the leftmost match of the ticket pattern, upper-cased, with its slashes removed; `TicketFoundIff`, `TicketShape` and `TicketIsLeftmost` state what it returns |
| BitwardenPr.TicketFoundIff | src/commands/bitwarden_pr/mod.rs:49-56 | a ticket is found iff the pattern matches somewhere in the branch |
| BitwardenPr.TicketShape | src/commands/bitwarden_pr/mod.rs:53-55 | every ticket found is two upper-case letters, `-`, and one to five digits |
| BitwardenPr.TicketIsLeftmost | src/commands/bitwarden_pr/mod.rs:51-55 | the ticket is the upper-cased text between the slashes of the leftmost match, whatever matches follow |
| BitwardenPr.NoSlashNoTicket | src/commands/bitwarden_pr/mod.rs:49-56 | a branch without `/` has no ticket |
| BitwardenPr.TicketInBranch | src/commands/bitwarden_pr/mod.rs:49-56 | a branch `pre/LL-DDDD/post` with no slash in `pre` names the ticket `LL-DDDD`, upper-cased |
| BitwardenPr.TooManyDigitsNoTicket | src/commands/bitwarden_pr/mod.rs:50 | six or more digits between the slashes, and no other slash, give no ticket |
| BitwardenPr.TicketExample | src/commands/bitwarden_pr/mod.rs:49-56 | `feature/AB-1234/add-thing` gives `AB-1234` |
| BitwardenPr.LowerCaseTicketExample | src/commands/bitwarden_pr/mod.rs:55 | `fix/pm-42/typo` gives `PM-42` |
| BitwardenPr.NoTicketExamples | src/commands/bitwarden_pr/mod.rs:49-56 | `main` and a bare `AB-1234` give no ticket |
| BitwardenPr.SixDigitsExample | src/commands/bitwarden_pr/mod.rs:50 | `feature/AB-123456/x` gives no ticket |
| BitwardenPr.PrTitle | src/commands/bitwarden_pr/mod.rs:116 | the title is the ticket between `[` and `]` |
| BitwardenPr.CreatePrDescription | src/commands/bitwarden_pr/mod.rs:65-74 | `create_pr_description` given the template text: every tracking header replaced by the heading and the Jira link of the ticket; `DescriptionWithoutHeader`, `DescriptionAtFirstHeader` and `DescriptionOfTemplate` state the result |
| BitwardenPr.DescriptionWithoutHeader | src/commands/bitwarden_pr/mod.rs:65-74 | a template without the tracking header comes back unchanged |
| BitwardenPr.DescriptionAtFirstHeader | src/commands/bitwarden_pr/mod.rs:70-73 | at the first tracking header, the text before it is kept and the header becomes the heading plus `[T](https://bitwarden.atlassian.net/browse/T)`; the rest of the template is processed the same way |
| BitwardenPr.DescriptionOfTemplate | src/commands/bitwarden_pr/mod.rs:65-74 | a template with one tracking header gets exactly that section replaced, and nothing else changes |
| BitwardenPr.PullRequestUrlOf | src/commands/bitwarden_pr/mod.rs:76-96 | the URL `construct_pull_request_url` builds, as address plus query pairs, or the "Invalid GitHub URL" error; `PullRequestUrlShape` states its parts |
| BitwardenPr.ConstructPullRequestUrl | src/commands/bitwarden_pr/mod.rs:76-96 | the imperative construction (parse, then three `append_pair` calls on the mutable URL) yields exactly `PullRequestUrlOf` |
| BitwardenPr.MutableUrl.AppendPair | src/commands/bitwarden_pr/mod.rs:90-93 | the pair is added at the end of the query; the address is unchanged |
| BitwardenPr.PullRequestUrlShape | src/commands/bitwarden_pr/mod.rs:82-95 | on success the address is the repository URL followed by `/compare/main...` and the branch, and the query is `quick_pull=1`, the title, then the body; a parse failure gives "Invalid GitHub URL: " plus the full address, with the parser's message as details |
| BitwardenPr.Submit | src/commands/bitwarden_pr/mod.rs:116-132 | the steps of `run` after the ticket is found: read the template (a panic when it is missing), build the title, description and URL, then launch `open`; `RunPanics`, `RunLateFailures`, `RunOpened` and `RunSucceeds` state its outcomes |
| BitwardenPr.Run | src/commands/bitwarden_pr/mod.rs:98-135 | `run`: discover the repository, recognise its remote, read the branch, find the ticket, then `Submit`; the `Run…` lemmas below state each outcome in order |
| BitwardenPr.RunRepositoryFailures | src/commands/bitwarden_pr/mod.rs:99-107 | no repository gives "GitHub repository not found" with details; an unrecognised remote gives "Not a recognized Bitwarden repository" with none |
| BitwardenPr.RunChecksRemoteFirst | src/commands/bitwarden_pr/mod.rs:104-109 | with an unrecognised remote, the head and the template make no difference: the branch is never read |
| BitwardenPr.RunBranchFailures | src/commands/bitwarden_pr/mod.rs:109-114 | in a recognised repository the two branch errors come next, then "No ticket found in branch name: " plus the branch, with no details |
| BitwardenPr.RunPanics | src/commands/bitwarden_pr/mod.rs:59-63 | the command panics iff it gets as far as the template and cannot read it |
| BitwardenPr.RunLateFailures | src/commands/bitwarden_pr/mod.rs:117-132 | past the template, a parse failure is reported with the full address, a failure to launch `open` with its details, and otherwise `open` is launched |
| BitwardenPr.RunOpened | src/commands/bitwarden_pr/mod.rs:98-135 | a run that launches `open` read the branch of a Bitwarden repository, built a well-formed ticket from it, and used the compare address of that branch with title `[ticket]` and the filled template as body |
| BitwardenPr.RunSucceeds | src/commands/bitwarden_pr/mod.rs:98-135 | conversely, a recognised repository whose branch names a ticket and whose template can be read launches `open` with that URL, when parsing and launching succeed |
| BitwardenPr.RunExample | src/commands/bitwarden_pr/mod.rs:98-135 | a clone of the clients repository on `feature/AB-1234/add-thing` opens the compare page for that branch with title `[AB-1234]` |

## Left out

- Printing (`println!` in both `run` functions) is not modelled. The `Colorx.Conversion` outcome and the `BitwardenPr.Outcome` fields stand for what would be printed.
- git access (`Repository::discover`, `find_remote`, `head`, `shorthand`) is replaced by the parameters `Discovery`, `Remote` and `HeadLookup`.
- Reading `.github/PULL_REQUEST_TEMPLATE.md` (`get_pull_request_template`) is replaced by `WorkingCopy.template`. `None` stands for the missing working directory or the unreadable file, where the code panics on `unwrap`.
- Launching the `open` command is replaced by the parameter `openError`. The process's exit status is ignored, as in the code.
- `Url::parse` is replaced by the parameter `parseError`. With the fixed Bitwarden addresses it does not fail in practice.
- BitwardenPr.PullRequestUrlOf: a successful `Url::parse` is taken as the identity, so `PullRequestUrl.address` is the unparsed text. The parser's normalisation is not modelled. A branch name may contain `#`, which the parser would turn into a fragment, so the compare page opened would name only the part of the branch before it.
- BitwardenPr.ConstructPullRequestUrl: returns the URL as address plus query pairs; it does not model the serialisation with WHATWG `application/x-www-form-urlencoded` percent-encoding done by the `url` crate.
- BitwardenPr.Run: a failure to launch `open` is the outcome `OpenFailed(url, details)`. The error message "Failed to open url: " plus the serialised URL is not built, because the serialisation is not modelled.
- The `regex` crate is not modelled. Each pattern is written out as a predicate or a search.
- Unicode upper-casing (`to_uppercase`) is modelled on ASCII letters only, which is all a matched ticket can hold.
- Colorx.ConvertHexToRgb: counts characters where the code counts bytes (`len`) and slices by bytes. The two agree on whether a conversion succeeds and on its value, as the modelling notes above explain. The exact panic message is not modelled.
- `clean`, `backup_configs`, `src/main.rs` and the clap argument definitions are not part of this model. `backup_configs` reads environment variables and writes files; its only string logic is a single `replace`.

## Findings

| source | as written | input that shows it | evidently intended | confidence | as-written member | corrected member |
|---|---|---|---|---|---|---|
| src/commands/colorx/mod.rs:15 | the hex pattern (`#` and 3 or 6 hex digits, then `$`) has no `^`, so any string that ends in a hex token is taken as hex | `x#fff` is taken as hex and then `convert_hex_to_rgb` panics slicing `raw_hex[4..6]`, since only five bytes remain; `xy#fff` is taken as hex and panics on the `unwrap` of `from_str_radix("xy", 16)`; `abcdef#abc` is converted to `rgb(171, 205, 239)` | the same pattern anchored with `^` as well, which accepts only a bare token; then every recognised hex value converts | not executed | Colorx.UnanchoredHexMisconverts | Colorx.ClassifyAnchoredNeverPanics |
