# Team Memberships access by IP: a Dafny model

This project models the decision logic of the WordPress plugin
"Newspack Teams for WooCommerce Memberships: access by IP". An administrator
stores, for each team membership, a comma-separated list of IPv4 addresses and
IPv4 ranges (`A-B`). A visitor whose address falls into one of a team's
entries is given access. The model covers two parts of that logic:

- the entry engine of `plugin/class-ip-validator.php`: address and range
  validation, range overlap, address-in-range, and the needle-against-haystack
  scan that answers true, false or null;
- the decisions `plugin/class-plugin.php` takes with that engine:
  - validating the settings field;
  - validating a whole settings save, which may reject a value or raise the
    "overlap found" flag;
  - finding the visitor's team;
  - cleaning up the entries of deleted teams.

Modules:

- `Wrappers` (wrappers.dfy): `Option`.
- `Strings` (strings.dfy): PHP `explode`/`implode` on one delimiter, with
  their round trips.
- `Ipv4` (ipv4.dfy): the dotted-quad reading that `filter_var(...,
  FILTER_VALIDATE_IP)` and `ip2long` give the plugin, its canonical
  formatting, and both round trips.
- `IpValidator` (ip_validator.dfy): the functions of `IP_Validator`. PHP's
  `bool|null` is `TriState` (`True`, `False`, `Invalid`). The meaning of an
  entry is `Entry` (`Address` or `Range`), with `Covers` and `Intersect`.
  The main result is `FieldsOverlapIsIntersection`: on well-formed input the
  scan answers True exactly when the needle shares an address with some
  haystack value.
- `Plugin` (plugin.dfy): the plugin's own decisions.
  - The class `Plugin` holds the one field the source mutates,
    `validation_error_happened`.
  - `ValidateFieldsOnUpdate` keeps the source's nested loops. It is proved
    against the pure `SaveDecision`.
  - `FindTeamByIp` and `CleanUpOldIps` keep the source's loops and state
    their results outright.
  - WordPress is abstracted away. The stored option (team id to field text,
    in option order), the posted settings fields, the client address and the
    ids of the existing teams are parameters. `update_option` and
    `delete_option` become a returned `OptionWrite`.
- `ValidatorExamples` (examples.dfy): each row of the data providers in
  `tests/plugin/test-ip-validator.php` as a lemma.
  - Valid addresses are written `Ip(a, b, c, d)`: the canonical text of the
    four groups, proved equal to the groups' decimal texts joined by dots.
    `1.1.1.10` in the tests is `Ip(1, 1, 1, 10)` in the model.
  - Malformed inputs are written as the test's literal text.

Behaviour worth knowing. The first and last points differ from the source's
own doc comments. In both cases the model follows the code.

- `do_ip_fields_overlap` returns true at the first matching haystack value,
  even if a later value is malformed (`PrefixDecides`). It returns null only
  when a malformed value comes before any match. Its doc comment
  (`plugin/class-ip-validator.php`, lines 131 and 136) promises null for
  invalid values.
- A range is accepted as the "needle" as well as an address, including the
  client address of the team lookup.
- A null answer is treated like false by every caller (`Truthy`).
- `validate_fields_on_update` checks each comma piece on its own with
  `is_valid_settings_field_ip`, which accepts the empty string. So a value
  with an empty piece, such as `1.1.1.1,`, passes the save-time check
  (`TrailingCommaPassesSave`). The same function rejects that value as a
  whole (`TrailingCommaRejected`), but it is only ever called per piece.
- `is_ip_address_within_range` has an invalid-input guard (line 118) that is
  the bare statement `null;`. It returns nothing, so the check falls through,
  although the doc comment (line 113) promises null for invalid values. The
  model states the guard as a precondition, which every caller meets.

## Model

| member | source | states |
|---|---|---|
| Strings.Split | plugin/class-ip-validator.php:36 | `explode` yields at least one piece, and no piece holds the delimiter |
| Strings.SplitAround | plugin/class-ip-validator.php:36 | splitting `s + sep + t` is splitting `s` followed by splitting `t` |
| Strings.SplitWithoutSeparator | plugin/class-plugin.php:441 | a text without the delimiter explodes to itself alone |
| Strings.JoinSplit | plugin/class-ip-validator.php:36 | `implode` undoes `explode`: joining the pieces gives back the text |
| Strings.SplitJoin | plugin/class-ip-validator.php:36 | `explode` undoes `implode` when no piece holds the delimiter |
| Strings.SinglePieceIff | plugin/class-ip-validator.php:37 | a text explodes to one piece exactly when it holds no delimiter |
| Strings.JoinChars | plugin/class-ip-validator.php:36 | every character of an imploded text is the delimiter or a character of some piece |
| Strings.PieceHoldsChar | plugin/class-ip-validator.php:36 | a non-delimiter character of the text lies in some exploded piece |
| Ipv4.DigitChar | plugin/class-ip-validator.php:25 | the digit character of a value below 10 reads back as that value |
| Ipv4.ParseOctet | plugin/class-ip-validator.php:25 | an accepted group has a value below 256 |
| Ipv4.Octets | plugin/class-ip-validator.php:151 | the four groups of an address value are each below 256 |
| Ipv4.ParseAddress | plugin/class-ip-validator.php:24-26 | an accepted dotted quad has a value below 2^32 |
| Ipv4.DigitCharOfValue | plugin/class-ip-validator.php:25 | reading a digit and writing it again gives the same character |
| Ipv4.DecimalLowerBound | plugin/class-ip-validator.php:25 | a digit string without a leading zero is at least 10^(length-1) |
| Ipv4.OctetLength | plugin/class-ip-validator.php:25 | an accepted group is one to three digits |
| Ipv4.FormatOctetDigits | plugin/class-ip-validator.php:25 | the canonical text of a group value is one to three digits |
| Ipv4.OctetRoundTrip | plugin/class-ip-validator.php:25 | a group value's canonical text reads back as that value |
| Ipv4.OctetCanonical | plugin/class-ip-validator.php:25 | an accepted group is the canonical text of its value: no leading zeros |
| Ipv4.OctetsOfCombine | plugin/class-ip-validator.php:151 | four groups below 256 combine below 2^32 and split back into the same groups |
| Ipv4.CombineOfOctets | plugin/class-ip-validator.php:151 | an address value is the combination of its four groups |
| Ipv4.AddressRoundTrip | plugin/class-ip-validator.php:24-26 | the canonical text of an address value reads back as that value |
| Ipv4.AddressCanonical | plugin/class-ip-validator.php:24-26 | an accepted address text is the canonical text of its value |
| Ipv4.AddressInjective | plugin/class-ip-validator.php:151 | two address texts with the same `ip2long` value are the same text |
| Ipv4.AddressAlphabet | plugin/class-ip-validator.php:24-26 | an address text holds only digits and dots |
| IpValidator.IpToLong | plugin/class-ip-validator.php:45 | `ip2long` of a valid address is below 2^32 |
| IpValidator.Truthy | plugin/class-plugin.php:115 | how a PHP `if` reads a tri-state answer: only true passes, null fails like false (the same reading at line 402, and at line 180 of `plugin/class-ip-validator.php`) |
| IpValidator.IsValidIpAddress | plugin/class-ip-validator.php:24-26 | `is_valid_ip_address`: the text is a dotted-quad IPv4 address (meaning given by `Ipv4.ParseAddress`) |
| IpValidator.IsValidIpRange | plugin/class-ip-validator.php:35-50 | `is_valid_ip_range`: exactly two dash-separated parts, both addresses, the first strictly below the second (meaning given by `RangeRoundTrip` and `RangeCanonical`) |
| IpValidator.DoIpRangesOverlap | plugin/class-ip-validator.php:62-105 | the answer is null exactly when one of the four bounds is not an address |
| IpValidator.IsIpAddressWithinRange | plugin/class-ip-validator.php:116-129 | true exactly when the address lies between the bounds, both included |
| IpValidator.MatchOne | plugin/class-ip-validator.php:146-188 | one pass of the loop body: the four address/range cases, null for a malformed value, false to move on (meaning given by `MatchOneIsIntersection`) |
| IpValidator.ScanHaystack | plugin/class-ip-validator.php:144-191 | the loop: stops at the first value that returns, with its answer, and answers false when every value moved on (proved in `ScanHaystackEnds`) |
| IpValidator.ScanHaystackEnds | plugin/class-ip-validator.php:144-191 | the scan answers what the first value that stops it returns, and false only when every value moved on |
| IpValidator.ShiftScan | plugin/class-ip-validator.php:144-189 | a first value that moves on shifts where the scan stops by one |
| IpValidator.ScanEndsOnce | plugin/class-ip-validator.php:144-189 | the scan stops at one place with one answer |
| IpValidator.DoIpFieldsOverlap | plugin/class-ip-validator.php:138-192 | null for a needle that is neither an address nor a range; false for an empty haystack |
| IpValidator.FieldsOverlapOutcome | plugin/class-ip-validator.php:138-192 | true iff some value matches with only non-matching valid values before it; false iff the needle is valid and no value stops the scan; null otherwise at a malformed value |
| IpValidator.ParseEntry | plugin/class-ip-validator.php:146-188 | a text has an entry meaning exactly when it is an address or a range |
| IpValidator.AddressIntersectIsCover | plugin/class-ip-validator.php:151 | an address shares an address with an entry exactly when the entry covers it |
| IpValidator.ParsedEntryIsInterval | plugin/class-ip-validator.php:35-50 | a valid text stands for a non-empty closed interval of addresses |
| IpValidator.IntersectIsIntervalTest | plugin/class-ip-validator.php:72-104 | two non-empty intervals meet exactly when each starts no later than the other ends |
| IpValidator.EmptyIsNoEntry | plugin/class-ip-validator.php:24-50 | the empty text is neither an address nor a range |
| IpValidator.RangeHasDash | plugin/class-ip-validator.php:35-50 | a valid range holds a `-` |
| IpValidator.AddressIsNotRange | plugin/class-ip-validator.php:146-188 | no text is both an address and a range, so the dispatch order does not matter |
| IpValidator.CommaIsNoEntry | plugin/class-ip-validator.php:24-50 | a text holding a comma is neither an address nor a range |
| IpValidator.FormattedHasNoDash | plugin/class-ip-validator.php:36 | the canonical text of an address holds no `-` |
| IpValidator.RangeRoundTrip | plugin/class-ip-validator.php:35-50 | `A-B` built from two address values is a range exactly when A < B, and then its bounds are A and B |
| IpValidator.RangeCanonical | plugin/class-ip-validator.php:35-50 | a valid range has lower < upper and is the canonical text of its two bounds |
| IpValidator.RangesOverlapIsIntersection | plugin/class-ip-validator.php:62-105 | for well-formed ranges the four boundary checks answer true exactly when the ranges share an address, i.e. when aLower <= bUpper and bLower <= aUpper |
| IpValidator.RangesOverlapSymmetric | plugin/class-ip-validator.php:62-105 | swapping needle and haystack ranges does not change the answer |
| IpValidator.RangesOverlapReflexive | plugin/class-ip-validator.php:62-105 | a well-formed range overlaps itself |
| IpValidator.RangesOverlapTouching | plugin/class-ip-validator.php:72-86 | ranges that share only a boundary address overlap |
| IpValidator.WithinRangeAsOverlap | plugin/class-ip-validator.php:116-129 | containment is overlap with the one-address range and is coverage by the range entry |
| IpValidator.MatchOneIsIntersection | plugin/class-ip-validator.php:146-188 | one pass of the loop body is null when either text is malformed, and otherwise whether the two entries share an address |
| IpValidator.FieldsOverlapIsIntersection | plugin/class-ip-validator.php:138-192 | with a valid needle and valid values the answer is never null, and is true exactly when some value shares an address with the needle |
| IpValidator.AddressFieldsOverlap | plugin/class-ip-validator.php:138-192 | for an address needle and valid values, true exactly when some value covers the address |
| IpValidator.PrefixDecides | plugin/class-ip-validator.php:144-189 | once a prefix of the haystack answers true or null, appending values does not change the answer |
| Plugin.AllPiecesValid | plugin/class-plugin.php:442-456 | the loop accepts exactly when every piece is an address or a range |
| Plugin.IsValidSettingsFieldIp | plugin/class-plugin.php:434-457 | a field is valid exactly when it is empty or every comma piece is an address or a range |
| Plugin.FieldJoinIff | plugin/class-plugin.php:434-457 | `a,b` is valid exactly when `a` and `b` are both non-empty and valid |
| Plugin.TrailingCommaRejected | plugin/class-plugin.php:441-455 | a field ending in a comma is rejected |
| Plugin.PieceIsValidIff | plugin/class-plugin.php:434-457 | a comma-free piece passes exactly when it is empty, an address or a range |
| Plugin.Conflicts | plugin/class-plugin.php:402 | a piece collides with a sibling when the sibling, passed whole as a one-element haystack, answers true |
| Plugin.FirstOverlap | plugin/class-plugin.php:400-421 | None exactly when no sibling collides; otherwise a colliding sibling with no collision before it |
| Plugin.FirstProblem | plugin/class-plugin.php:378-422 | Accepted exactly when every piece is valid and collision-free; otherwise the first malformed piece, or the first collision, with every earlier piece clean |
| Plugin.ShiftClean | plugin/class-plugin.php:379-422 | after a clean first piece, "clean before i+1" is "the rest is clean before i" |
| Plugin.DigitRunBefore | plugin/class-plugin.php:356 | counts the digits that end just before an index, and the character before them is not a digit |
| Plugin.IdClosedAt | plugin/class-plugin.php:356 | an id found closing at `q` fits before `q` with room for `[` and one character |
| Plugin.IdClosedAtSome | plugin/class-plugin.php:356 | an id found at `q` is a bracketed digit run ending at `q`, and is its digits |
| Plugin.IdClosedAtNone | plugin/class-plugin.php:356 | no id at `q` means no bracketed digit run ends at `q` |
| Plugin.SearchId | plugin/class-plugin.php:356 | a found id is never empty |
| Plugin.SearchIdNone | plugin/class-plugin.php:356-359 | a search that finds nothing saw no closing id |
| Plugin.SearchIdLast | plugin/class-plugin.php:356-359 | a search that finds an id returns the one that closes last |
| Plugin.NoIdExtend | plugin/class-plugin.php:356 | widening the searched range by one index adds that index's check |
| Plugin.ExtractTeamIdNone | plugin/class-plugin.php:356-359 | the pattern finds no id exactly when no `[digits]` with a character before it occurs |
| Plugin.NoIdMeansNoBracket | plugin/class-plugin.php:356 | where no id closes, no bracketed digit run closes |
| Plugin.ExtractTeamIdSome | plugin/class-plugin.php:356-359 | a found id is the digits of a bracketed run with no such run closing after it (greedy `.+`) |
| Plugin.ExtractTeamId | plugin/class-plugin.php:356-359 | the id that `preg_match` captures from the option id, or None (characterised by `ExtractTeamIdNone` and `ExtractTeamIdSome`) |
| Plugin.OtherPostedFields | plugin/class-plugin.php:373-375 | the other fields are exactly the posted values under keys other than the team's own |
| Plugin.FindCollision | plugin/class-plugin.php:400-421 | the inner loop finds a collision exactly when some sibling collides with the piece |
| Plugin.SaveDecision | plugin/class-plugin.php:348-425 | the whole decision for a field when no earlier field failed: the value unchanged without a team id or posted array, null for the first malformed piece, null with the flag raised for the first collision, else the value (the specification of `ValidateFieldsOnUpdate`) |
| Plugin.Plugin.constructor | plugin/class-plugin.php:351 | the flag starts unset |
| Plugin.Plugin.ValidateFieldsOnUpdate | plugin/class-plugin.php:348-425 | once the flag is set, returns null and keeps it set; otherwise the result and new flag are `SaveDecision`: the value unchanged without a team id or posted array, null on a malformed piece, null with the flag raised on a collision |
| Plugin.ProblemStep | plugin/class-plugin.php:379-422 | one outer pass: the piece decides the verdict, or the remaining pieces do |
| Plugin.OverlapStep | plugin/class-plugin.php:400-421 | one inner pass: the sibling collides, or the remaining siblings decide |
| Plugin.SavedIsValue | plugin/class-plugin.php:348-425 | the filter returns the value unchanged or null, never anything else |
| Plugin.AcceptedIsClean | plugin/class-plugin.php:378-424 | an accepted save has every piece empty, an address or a range, and no piece collides with any sibling |
| Plugin.OverlappingHasConflict | plugin/class-plugin.php:400-421 | an overlapping verdict names a piece and a sibling that collide |
| Plugin.FlagMeansCollision | plugin/class-plugin.php:402-405 | the flag is raised only when the option id has a team id and some piece collides with some sibling |
| Plugin.CommaSiblingNeverConflicts | plugin/class-plugin.php:402 | a sibling holding a comma is passed whole, answers null, and never collides |
| Plugin.TrailingCommaPassesSave | plugin/class-plugin.php:378-424 | an entry with a trailing comma explodes to the entry and an empty piece, passes the save check when the entry collides with nothing, and yet fails `is_valid_settings_field_ip` as a whole |
| Plugin.FieldMatches | plugin/class-plugin.php:115 | a team's stored field, exploded on commas, answers true for the client needle (meaning given by `FieldMatchesIff`) |
| Plugin.FindTeamByIp | plugin/class-plugin.php:113-122 | None exactly when no team's field matches; otherwise the first team, in option order, whose field matches |
| Plugin.FieldMatchesIff | plugin/class-plugin.php:115 | for a client address and a non-empty valid field, the field matches exactly when one of its entries covers the address |
| Plugin.KeepTeams | plugin/class-plugin.php:217-222 | the kept entries are exactly the entries whose key is an existing team id |
| Plugin.KeepTeamsAppend | plugin/class-plugin.php:217-222 | filtering distributes over concatenation, so option order is kept |
| Plugin.KeepAllIff | plugin/class-plugin.php:224 | nothing is dropped exactly when every key is an existing team id |
| Plugin.CleanUpOldIps | plugin/class-plugin.php:200-227 | does nothing for an empty option; deletes it when there are no teams; otherwise writes back the kept entries, and only when some entry was dropped |
| ValidatorExamples.HaystackMeaning | tests/plugin/test-ip-validator.php:204-207 | against the tests' haystack, the answer for a valid needle is whether it meets 1.1.1.10 or the range 10.1.1.100-10.1.1.115 |
| ValidatorExamples.AddressRow107 | tests/plugin/test-ip-validator.php:107 | `` is not an address |
| ValidatorExamples.AddressRow108 | tests/plugin/test-ip-validator.php:108 | ` ` is not an address |
| ValidatorExamples.AddressRow109 | tests/plugin/test-ip-validator.php:109 | `2.1.1.1` is an address |
| ValidatorExamples.AddressRow110 | tests/plugin/test-ip-validator.php:110 | `2.1.1.254` is an address |
| ValidatorExamples.AddressRow111 | tests/plugin/test-ip-validator.php:111 | `2.1.1.354` is not an address |
| ValidatorExamples.AddressRow112 | tests/plugin/test-ip-validator.php:112 | `2.1.1.1-2.1.1.5` is not an address |
| ValidatorExamples.AddressRow113 | tests/plugin/test-ip-validator.php:113 | `2.1.1.5,2.1.1.1` is not an address |
| ValidatorExamples.AddressRow114 | tests/plugin/test-ip-validator.php:114 | `1.1.1.1,2.1.1.1` is not an address |
| ValidatorExamples.AddressRow115 | tests/plugin/test-ip-validator.php:115 | `1.1.1.1,2.1.1.1-2.1.1.5` is not an address |
| ValidatorExamples.RangeRow126 | tests/plugin/test-ip-validator.php:126 | `` is not a range |
| ValidatorExamples.RangeRow127 | tests/plugin/test-ip-validator.php:127 | `-` is not a range |
| ValidatorExamples.RangeRow128 | tests/plugin/test-ip-validator.php:128 | ` ` is not a range |
| ValidatorExamples.RangeRow129 | tests/plugin/test-ip-validator.php:129 | ` -` is not a range |
| ValidatorExamples.RangeRow130 | tests/plugin/test-ip-validator.php:130 | `1.1.1.100` is not a range |
| ValidatorExamples.RangeRow131 | tests/plugin/test-ip-validator.php:131 | `2.1.1.1-` is not a range |
| ValidatorExamples.RangeRow132 | tests/plugin/test-ip-validator.php:132 | `-2.1.1.1` is not a range |
| ValidatorExamples.RangeRow133 | tests/plugin/test-ip-validator.php:133 | `--2.1.1.1` is not a range |
| ValidatorExamples.RangeRow134 | tests/plugin/test-ip-validator.php:134 | `2.1.1.1-2.1.1.5` is a range |
| ValidatorExamples.RangeRow135 | tests/plugin/test-ip-validator.php:135 | `2.1.1.5-2.1.1.1` is not a range |
| ValidatorExamples.RangeRow136 | tests/plugin/test-ip-validator.php:136 | `2.1.1.1-d.1.1.5` is not a range |
| ValidatorExamples.RangeRow137 | tests/plugin/test-ip-validator.php:137 | `2.1.1.5,2.1.1.1` is not a range |
| ValidatorExamples.WithinRangeRow148 | tests/plugin/test-ip-validator.php:148 | 2.2.2.100 is not within 1.1.1.100-1.1.1.150 |
| ValidatorExamples.WithinRangeRow149 | tests/plugin/test-ip-validator.php:149 | 2.2.2.100 is within 2.2.2.50-2.2.2.100 |
| ValidatorExamples.WithinRangeRow150 | tests/plugin/test-ip-validator.php:150 | 2.2.2.100 is within 2.2.2.50-2.2.2.150 |
| ValidatorExamples.WithinRangeRow151 | tests/plugin/test-ip-validator.php:151 | 2.2.2.100 is within 2.2.2.100-2.2.2.150 |
| ValidatorExamples.WithinRangeRow152 | tests/plugin/test-ip-validator.php:152 | 2.2.2.100 is not within 2.2.2.150-2.2.2.200 |
| ValidatorExamples.WithinRangeRow153 | tests/plugin/test-ip-validator.php:153 | 2.2.2.100 is not within 3.3.3.50-3.3.3.100 |
| ValidatorExamples.RangesOverlapRow166 | tests/plugin/test-ip-validator.php:166 | 10.1.1.90-10.1.1.95 against 10.1.1.100-10.1.1.115 answers False |
| ValidatorExamples.RangesOverlapRow170 | tests/plugin/test-ip-validator.php:170 | 10.1.1.90-10.1.1.100 against 10.1.1.100-10.1.1.115 answers True |
| ValidatorExamples.RangesOverlapRow171 | tests/plugin/test-ip-validator.php:171 | 10.1.1.90-10.1.1.110 against 10.1.1.100-10.1.1.115 answers True |
| ValidatorExamples.RangesOverlapRow172 | tests/plugin/test-ip-validator.php:172 | 10.1.1.90-10.1.1.115 against 10.1.1.100-10.1.1.115 answers True |
| ValidatorExamples.RangesOverlapRow173 | tests/plugin/test-ip-validator.php:173 | 10.1.1.90-10.1.1.120 against 10.1.1.100-10.1.1.115 answers True |
| ValidatorExamples.RangesOverlapRow177 | tests/plugin/test-ip-validator.php:177 | 10.1.1.100-10.1.1.105 against 10.1.1.100-10.1.1.115 answers True |
| ValidatorExamples.RangesOverlapRow178 | tests/plugin/test-ip-validator.php:178 | 10.1.1.100-10.1.1.115 against 10.1.1.100-10.1.1.115 answers True |
| ValidatorExamples.RangesOverlapRow179 | tests/plugin/test-ip-validator.php:179 | 10.1.1.100-10.1.1.120 against 10.1.1.100-10.1.1.115 answers True |
| ValidatorExamples.RangesOverlapRow183 | tests/plugin/test-ip-validator.php:183 | 10.1.1.101-10.1.1.105 against 10.1.1.100-10.1.1.115 answers True |
| ValidatorExamples.RangesOverlapRow184 | tests/plugin/test-ip-validator.php:184 | 10.1.1.101-10.1.1.115 against 10.1.1.100-10.1.1.115 answers True |
| ValidatorExamples.RangesOverlapRow185 | tests/plugin/test-ip-validator.php:185 | 10.1.1.101-10.1.1.120 against 10.1.1.100-10.1.1.115 answers True |
| ValidatorExamples.RangesOverlapRow189 | tests/plugin/test-ip-validator.php:189 | 10.1.1.115-10.1.1.120 against 10.1.1.100-10.1.1.115 answers True |
| ValidatorExamples.RangesOverlapRow193 | tests/plugin/test-ip-validator.php:193 | 10.1.1.116-10.1.1.120 against 10.1.1.100-10.1.1.115 answers False |
| ValidatorExamples.RangesOverlapRow194 | tests/plugin/test-ip-validator.php:194 | 10.1.1.120-10.1.1.125 against 10.1.1.100-10.1.1.115 answers False |
| ValidatorExamples.FieldsOverlapRow211 | tests/plugin/test-ip-validator.php:211 | needle 1.1.1.9 against the haystack answers False |
| ValidatorExamples.FieldsOverlapRow212 | tests/plugin/test-ip-validator.php:212 | needle 1.1.1.10 against the haystack answers True |
| ValidatorExamples.FieldsOverlapRow213 | tests/plugin/test-ip-validator.php:213 | needle 1.1.1.21 against the haystack answers False |
| ValidatorExamples.FieldsOverlapRow216 | tests/plugin/test-ip-validator.php:216 | needle 10.1.1.99 against the haystack answers False |
| ValidatorExamples.FieldsOverlapRow217 | tests/plugin/test-ip-validator.php:217 | needle 10.1.1.110 against the haystack answers True |
| ValidatorExamples.FieldsOverlapRow218 | tests/plugin/test-ip-validator.php:218 | needle 10.1.1.113 against the haystack answers True |
| ValidatorExamples.FieldsOverlapRow219 | tests/plugin/test-ip-validator.php:219 | needle 10.1.1.115 against the haystack answers True |
| ValidatorExamples.FieldsOverlapRow220 | tests/plugin/test-ip-validator.php:220 | needle 10.1.1.116 against the haystack answers False |
| ValidatorExamples.FieldsOverlapRow223 | tests/plugin/test-ip-validator.php:223 | needle 1.1.1.1-1.1.1.9 against the haystack answers False |
| ValidatorExamples.FieldsOverlapRow224 | tests/plugin/test-ip-validator.php:224 | needle 1.1.1.1-1.1.1.10 against the haystack answers True |
| ValidatorExamples.FieldsOverlapRow225 | tests/plugin/test-ip-validator.php:225 | needle 1.1.1.1-1.1.1.20 against the haystack answers True |
| ValidatorExamples.FieldsOverlapRow226 | tests/plugin/test-ip-validator.php:226 | needle 1.1.1.9-1.1.1.20 against the haystack answers True |
| ValidatorExamples.FieldsOverlapRow227 | tests/plugin/test-ip-validator.php:227 | needle 1.1.1.10-1.1.1.20 against the haystack answers True |
| ValidatorExamples.FieldsOverlapRow228 | tests/plugin/test-ip-validator.php:228 | needle 1.1.1.11-1.1.1.20 against the haystack answers False |
| ValidatorExamples.FieldsOverlapRow233 | tests/plugin/test-ip-validator.php:233 | needle 10.1.1.90-10.1.1.95 against the haystack answers False |
| ValidatorExamples.FieldsOverlapRow236 | tests/plugin/test-ip-validator.php:236 | needle 10.1.1.90-10.1.1.100 against the haystack answers True |
| ValidatorExamples.FieldsOverlapRow237 | tests/plugin/test-ip-validator.php:237 | needle 10.1.1.90-10.1.1.110 against the haystack answers True |
| ValidatorExamples.FieldsOverlapRow238 | tests/plugin/test-ip-validator.php:238 | needle 10.1.1.90-10.1.1.115 against the haystack answers True |
| ValidatorExamples.FieldsOverlapRow239 | tests/plugin/test-ip-validator.php:239 | needle 10.1.1.90-10.1.1.120 against the haystack answers True |
| ValidatorExamples.FieldsOverlapRow242 | tests/plugin/test-ip-validator.php:242 | needle 10.1.1.100-10.1.1.105 against the haystack answers True |
| ValidatorExamples.FieldsOverlapRow243 | tests/plugin/test-ip-validator.php:243 | needle 10.1.1.100-10.1.1.115 against the haystack answers True |
| ValidatorExamples.FieldsOverlapRow244 | tests/plugin/test-ip-validator.php:244 | needle 10.1.1.100-10.1.1.120 against the haystack answers True |
| ValidatorExamples.FieldsOverlapRow247 | tests/plugin/test-ip-validator.php:247 | needle 10.1.1.101-10.1.1.105 against the haystack answers True |
| ValidatorExamples.FieldsOverlapRow248 | tests/plugin/test-ip-validator.php:248 | needle 10.1.1.101-10.1.1.115 against the haystack answers True |
| ValidatorExamples.FieldsOverlapRow249 | tests/plugin/test-ip-validator.php:249 | needle 10.1.1.101-10.1.1.120 against the haystack answers True |
| ValidatorExamples.FieldsOverlapRow252 | tests/plugin/test-ip-validator.php:252 | needle 10.1.1.115-10.1.1.120 against the haystack answers True |
| ValidatorExamples.FieldsOverlapRow255 | tests/plugin/test-ip-validator.php:255 | needle 10.1.1.116-10.1.1.120 against the haystack answers False |
| ValidatorExamples.FieldsOverlapRow256 | tests/plugin/test-ip-validator.php:256 | needle 10.1.1.120-10.1.1.125 against the haystack answers False |

## Left out

- WordPress plumbing is not modelled: hooks and filters, `get_option`, `update_option` and `delete_option` (the writes are the returned `OptionWrite`), and the `WC_Admin_Settings::add_error` messages.
- The access decision after the team lookup in `set_post_public_by_ip` (lines 124 onward) is not modelled: the `Team`, its plan and the restricted-content checks are WooCommerce calls. So are the early returns before the lookup (post type and status, empty option, no client address).
- `get_client_ip` and the reading and sanitising of `$_POST` are not modelled. The client address and the posted fields are parameters. The sanitising loop of lines 370-372 has no effect, because line 373 overwrites its result.
- `get_teams` is not modelled: the existing team ids are a parameter.
- The settings screen, `get_instance`, the constructor's hook registration and the bootstrap file are not modelled.
- IPv6: `FILTER_VALIDATE_IP` without a flag also accepts IPv6 addresses. The model accepts only dotted-quad IPv4, which is all that the plugin's `ip2long` arithmetic can use.
- The exact `filter_var` grammar beyond canonical dotted quads (for example surrounding whitespace) is not modelled. Any text that is not four decimal groups of 0–255 without leading zeros is rejected.
- PHP loose comparison and array-key normalisation are not modelled. Team ids are integers. Posted keys are compared with the extracted id as exact strings. `in_array` is modelled as exact membership.
- `is_valid_settings_field_ip` uses `empty($field)`, which also accepts the string `"0"`. The model accepts only the empty string there. So a whole field `"0"` is not modelled. Neither is a `"0"` piece inside a comma list at save time: the source accepts `1.1.1.1,0` for the reason `1.1.1.1,` passes, and the model rejects it.
- IpValidator.IpToLong: assumes a 64-bit PHP build, where `ip2long` is unsigned and every value lies in [0, 2^32). On a 32-bit build it returns a signed integer. There the ordering test of `is_valid_ip_range` (line 45) rejects a range crossing 128.0.0.0, such as `127.255.255.255-128.0.0.0`, and the overlap and containment comparisons invert across that point. The model does not capture that platform.
- The regular expression of line 356 is modelled as "the rightmost `[digits]` with at least one character before its `[`". How `.` treats newlines is not modelled.
- IpValidator.IsIpAddressWithinRange: requires all three texts to be valid addresses. The source's guard on line 118 is the no-op statement `null;`, and on invalid input PHP would compare `ip2long`'s `false` values.
- The PHPUnit tests are not modelled as code. Each data-provider row is a lemma in `ValidatorExamples`. Valid addresses appear there as their canonical text `Ip(a, b, c, d)` rather than as string literals.
