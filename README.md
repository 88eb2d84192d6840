# Zone-file generator model

This project models the core of a small Go tool. The tool exports a DNS zone
hosted by a managed DNS provider as a BIND-style master file (section 5 of
RFC 1035). Given a zone, the zone's records and the site's redirect rules, the
generator produces the following text:

- an `$ORIGIN <zone>.` header line;
- then one `name IN ttl type [priority] value` line per record whose hostname
  has not been seen before, in input order.

The generator also rewrites each record on its way out:

- The provider's pseudo-types `NETLIFY` and `NETLIFYv6` are written as `CNAME`.
- Values of hostname-valued types get a trailing `.`. Whether a type is
  hostname-valued is decided on the type before aliasing.
- A non-zero priority is written as its own field.
- When a redirect rule's `from` URL has the record's hostname as its host, the
  value is replaced by that rule's `to` URL. Each `:splat` found in one
  left-to-right pass is removed from it, and then trailing `/` characters are
  trimmed. Only the first matching rule counts.

Modules:

- `Wrappers` holds `Option`.
- `Text` models the string primitives the generator uses:
  `strings.ReplaceAll` with an empty replacement (and the `strings.Index`
  scan it repeats), `strings.TrimRight` with a one-character cutset, and
  `%d` for integers, with its decimal round trip.
- `Records` holds the record types, type aliasing and the deduplication by
  name.
- `Redirects` holds rule matching, destination cleaning and the
  first-match-wins loop. The loop is a method proved against a specification
  function.
- `ZoneFile` holds the specification of the whole text (`ZoneFileText`), the
  imperative generator `GenerateZoneFile` proved equal to it, and the
  properties of the text.

URL parsing is a parameter `hostOf: string -> Option<string>`. It gives the
host of a URL, or `None` when the URL does not parse, and every result holds
for any such function.

The code and its own comments differ on two points, and the model follows
the code in both:

- The comment on `extractDestination` (main.go:199) says it removes any
  `:splat` from the URL. `strings.ReplaceAll` (main.go:202) makes a single
  left-to-right pass, though, so a `:splat` formed by the removal survives.
  `Text.RemoveAllIsSinglePass` shows this with `::splatsplat`.
- The comment at main.go:201 speaks of removing `:splat` "or any other
  placeholder". The call that follows removes only `:splat`, and so does
  `Redirects.ExtractDestination`.

## Model

| member | source | states |
|---|---|---|
| Records.TypeWithReplacement | main.go:181-186 | `NETLIFY` and `NETLIFYv6` become `CNAME`, every other type is returned unchanged, and the result is never a pseudo-type |
| Records.TypeWithReplacementIdempotent | main.go:181-186 | aliasing a type a second time changes nothing |
| Records.HostnameValuedIffWrittenAsCname | main.go:147-151 | a value gets its trailing `.` exactly when the type written out is `CNAME`, so the original type and the aliased type agree |
| Records.IsHostnameValued | main.go:147 | the suffix test: the original type is `CNAME`, `NETLIFYv6` or `NETLIFY`; its meaning is carried by `HostnameValuedIffWrittenAsCname` |
| Records.Name | main.go:135 | the deduplication key, the hostname with a `.` appended; `NameInjective` shows it identifies hostnames |
| Records.NameInjective | main.go:135 | two records have the same deduplication key (`hostname + "."`) exactly when their hostnames are equal |
| Records.NamesMembership | main.go:135-144 | a key is among the keys seen so far exactly when its hostname is among the hostnames seen so far |
| Records.Deduplicate | main.go:132-144 | the kept records are never more than the input records |
| Records.DeduplicateStep | main.go:137-144 | one more record leaves the kept list unchanged if its key was seen, and otherwise appends the record |
| Records.DeduplicateDrawsFromInput | main.go:132-144 | every kept record is one of the input records |
| Records.FirstOccurrences | main.go:132-144 | the chosen positions are strictly increasing, and each is the first position of its hostname |
| Records.FirstOccurrencesComplete | main.go:137-144 | every position that is the first of its hostname is chosen |
| Records.DeduplicateKeepsFirstOccurrences | main.go:132-144 | the kept records are exactly the records at first occurrences, in input order |
| Records.DeduplicateIsSelection | main.go:132-144 | the kept list is the input restricted to the first-occurrence positions |
| Records.DeduplicateDistinct | main.go:137-144 | no two kept records share a hostname |
| Records.DeduplicateCount | main.go:132-144 | the number of kept records equals the number of distinct hostnames |
| Redirects.MatchRedirectRule | main.go:189-196 | a rule whose `from` does not parse never matches, and a rule matches exactly when its parsed host equals the domain |
| Redirects.MatchRedirectRuleExact | main.go:195 | the comparison is exact: one rule matches at most one domain |
| Redirects.ExtractDestination | main.go:200-208 | the result has no trailing `/`, and it is the text left by one left-to-right pass removing `:splat`, with only `/` characters cut from its end |
| Redirects.ExtractDestinationStable | main.go:200-208 | a destination with no `:splat` and no trailing `/` is returned unchanged |
| Redirects.ExtractDestinationExample | main.go:200-208 | `/a/:splat` becomes `/a`: the splat is removed, then the slash it left behind is trimmed |
| Redirects.ExtractDestinationAddsNothing | main.go:200-208 | cleaning introduces no character absent from the `to` rule |
| Redirects.ExtractDestinationIdempotent | main.go:200-208 | cleaning a cleaned destination that contains no `:splat` changes nothing |
| Redirects.FirstMatch | main.go:158-164 | the index of the first rule whose `from` matches the hostname, if any; `FirstMatchCorrect` and `FirstMatchAt` give its meaning |
| Redirects.Redirected | main.go:158-164 | the value after the redirect loop: the first matching rule's cleaned destination, or the value unchanged; `RedirectedSpec` gives its meaning |
| Redirects.FirstMatchCorrect | main.go:158-164 | a found rule matches and no earlier rule does, and nothing is found exactly when no rule matches |
| Redirects.FirstMatchAt | main.go:158-164 | a matching rule preceded by no match is the one found |
| Redirects.RedirectedSpec | main.go:158-164 | with no matching rule the value is kept, and otherwise the first matching rule's cleaned destination replaces it |
| Redirects.ApplyRedirects | main.go:158-164 | the loop with `break` computes exactly the first-match-wins value |
| Text.RemoveAll | main.go:202 | `strings.ReplaceAll` with an empty replacement: repeatedly cut the leftmost occurrence and resume after it; the result is never longer than the input, and `RemoveAllUnchangedIff`, `RemoveAllAddsNothing` and `RemoveAllIsSinglePass` give its meaning |
| Text.IndexCorrect | main.go:202 | a found index is the leftmost occurrence, and nothing is found exactly when the pattern does not occur |
| Text.RemoveAllUnchangedIff | main.go:202 | removing the pattern changes the text exactly when the pattern occurs in it |
| Text.RemoveAllAddsNothing | main.go:202 | removing the pattern introduces no new character |
| Text.RemoveAllIsSinglePass | main.go:202 | removal is a single pass: `::splatsplat` leaves `:splat` behind |
| Text.TrimRight | main.go:205 | the result is a prefix that does not end in the cut character, and everything cut is that character |
| Text.TrimRightUnique | main.go:205 | the properties above determine the trimmed text uniquely |
| Text.TrimRightIdempotent | main.go:205 | trimming twice is trimming once |
| Text.Decimal | main.go:153-156 | `%d`: a `-` for negatives, then the digits without leading zeros; `DecimalRoundTrip`, `DecimalInjective` and `DecimalIsOneField` give its meaning |
| Text.NatDigitsRoundTrip | main.go:166-175 | reading back the decimal digits of a natural number gives the number |
| Text.DecimalRoundTrip | main.go:166-175 | `%d` of any integer parses back to that integer |
| Text.DecimalInjective | main.go:166-175 | distinct integers print as distinct text |
| Text.DecimalIsOneField | main.go:166-175 | `%d` produces a non-empty field with no tab or newline |
| ZoneFile.OriginLine | main.go:129 | the header `$ORIGIN <zone name>.` and a newline; `ZoneFileLayout` shows the text starts with it |
| ZoneFile.OwnValue | main.go:146-151 | the value before redirects: suffixed with `.` for hostname-valued original types; `RecordValueSpec` gives its meaning |
| ZoneFile.RecordValue | main.go:146-164 | the value written: the redirect loop applied to the record's own value; `RecordValueSpec` gives its meaning |
| ZoneFile.RecordLine | main.go:166-175 | the record's line in the `%s\tIN\t%d\t%s%s\t%s\n` layout; `RecordLineLayout` and `RecordLineIsOneLine` give its meaning |
| ZoneFile.ZoneFileText | main.go:126-179 | the text the generator returns: the header, then the lines of the deduplicated records; `ZoneFileLayout` and `ZoneFileLineCount` give its meaning |
| ZoneFile.PrioritySegment | main.go:153-156 | the priority field is empty exactly when the priority is zero, and otherwise is a tab followed by the decimal priority |
| ZoneFile.RecordValueSpec | main.go:146-164 | with no rule matching, `CNAME`, `NETLIFY` and `NETLIFYv6` values get a `.` and other values are unchanged; with a match, the first matching rule's cleaned destination is written whatever the type |
| ZoneFile.RecordLineLayout | main.go:166-175 | a line is name, `IN`, TTL, aliased type, the priority only when it is non-zero, then the value, tab-separated and newline-terminated |
| ZoneFile.GenerateZoneFile | main.go:126-179 | the loop over records with its seen-names map produces exactly the specified zone-file text |
| ZoneFile.ZoneFileTextStep | main.go:134-176 | one more record adds nothing when its name was seen, and otherwise adds exactly its line |
| ZoneFile.RecordLineFromFields | main.go:146-175 | the line the loop body assembles from its local value and priority is the record's specified line |
| ZoneFile.ZoneFileLayout | main.go:126-179 | the text starts with the `$ORIGIN` line, then has the lines of the first occurrence of each hostname in input order, as many as there are distinct hostnames |
| ZoneFile.AppendDuplicateAddsNothing | main.go:137-141 | appending a record whose hostname was already seen leaves the text unchanged |
| ZoneFile.AppendNewAddsItsLine | main.go:143-175 | appending a record with a new hostname appends exactly its line |
| ZoneFile.ExampleDeduplicate | main.go:132-144 | in a three-record example, the second record for the apex is dropped |
| ZoneFile.ExampleApexLine | main.go:166-175 | an `A` record is written with its value unsuffixed |
| ZoneFile.ExampleNetlifyLine | main.go:146-175 | a `NETLIFY` record is written as `CNAME` with its value suffixed by `.` |
| ZoneFile.ExampleZone | main.go:126-179 | the full text of the three-record example: header, apex line, `www` line |
| ZoneFile.OriginLineIsOneLine | main.go:129 | the header is exactly one line when the zone name has no newline |
| ZoneFile.RecordLineIsOneLine | main.go:166-175 | each record line holds exactly one newline, at its end, when the input fields have no newline |
| ZoneFile.ZoneFileLineCount | main.go:126-179 | with newline-free fields, the text has one line plus one line per distinct hostname |

## Left out

- Fetching the zone and its records over HTTP (main.go:65-124) is left out: it is network I/O. The model takes the zone and records as inputs.
- Reading the redirect rules from `netlify.toml` (main.go:54-63) is left out: it is file I/O and TOML decoding. The model takes the rules as input.
- The command-line entry point (main.go:210-248) is left out: it covers environment variables, the token, output file writing and exit codes.
- The diagnostic `Printf` calls for skipped duplicates and applied redirects (main.go:139, 161) are left out: they write to standard output and do not affect the returned text.
- `url.Parse` is not modelled: its grammar belongs to the Go standard library. It is the `hostOf` parameter, and results hold for every such function.
- Record fields the generator never reads (`Weight`, `Port`, `Flag`, `Tag`, `Managed`, `Id`, `DnsZoneId`, main.go:23-36) are left out, and so are the rule fields `Status` and `Force` (main.go:43-48). None of them affects the output.
- The `error` result of `GenerateZoneFile` (main.go:178) is left out: it is always `nil`, so the method returns only the text.
- `strings.ReplaceAll` is modelled only with an empty replacement, the one use the generator makes of it. `strings.TrimRight` is modelled only with a one-character cutset.
- Go's `int` for TTL and priority (main.go:28-29; 64 bits on 64-bit platforms) is modelled as an unbounded integer. The generator only formats these values and never does arithmetic on them, so no wrap-around can occur.
- The redirect loop is factored into `Redirects.ApplyRedirects`, which the generator calls once per record. The inline loop in the source behaves the same way.
- Strings are modelled as sequences of characters, while a Go `string` is a sequence of bytes and `ReplaceAll`, `TrimRight` and `==` work on bytes. The results are the same here: `:splat` and `/` are ASCII, and the decoded JSON and TOML inputs are valid UTF-8.
