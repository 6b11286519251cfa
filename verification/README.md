# DnsLibs, modelled in Dafny

A model of the parts of DnsLibs that carry the most state and arithmetic, with proofs of what they promise. The files
follow the components of the library:

| files | component |
|---|---|
| `Text`, `Lines` | string helpers; the two line readers, for text in memory and for files read in chunks |
| `RuleSyntax`, `RuleText`, `Shortcuts`, `ShortcutOrder` | parsing of filter rules, what is read from their texts, the regular expressions and shortcuts made from them, the shortcut gate |
| `FilterSpec`, `FilterIndex`, `Filter`, `FilterMeaning`, `Engine` | the rule index of a filter, what it finds, what a plain scan would find, and the engine over several filters |
| `DomainRules`, `PatternLines` | what the lines of a list find, said on their texts: domain names, hosts lines, patterns, regular expressions |
| `WildcardRules`, `RegexOnlyRules`, `LostRules` | what rules made from patterns find, and which of them are lost |
| `EffectiveRules`, `HostsRules` | the choice of effective rules and its use along a response |
| `Cesu8`, `Cesu8Meaning` | UTF-8 to CESU-8 in two passes (section 2 of Unicode Technical Report #26) |
| `Base64`, `DnsStamp`, `StampLayout`, `StampRoundTrip`, `StampReader`, `StampOverrun` | DNS stamps over base64url (section 5 of RFC 4648): their layout byte by byte, reading, writing, round trip |
| `Dns64` | prefix discovery and address synthesis (section 2.2 of RFC 6052, section 3 of RFC 7050) |
| `TcpFraming` | messages on a stream (section 4.2.2 of RFC 1035) |
| `LruCache`, `LruRecency` | the generic cache, and what a run leaves in it |
| `ResponseCache`, `ResponseRuns`, `CacheKey` | the response cache above it, its TTLs and its keys |
| `FramedConnection`, `FramedProtocol`, `FramedAbandoned` | the request table of a framed connection, and the connection as a protocol of threads |
| `Bootstrapper`, `Disabler` | the rotating list of resolvers and the temporary disabler |
| `Routes` | the longest-prefix lookup |

`dafny verify dfyconfig.toml` checks the project.

Objects that the library updates in place are classes here, and its loops are loops. Each is proved against a function on
values, and the properties of the library are lemmas about those functions: the filter against a scan over all lines, the
cache against the times of last touch, the parser against one parse of the whole stream, the connection against every
interleaving of its threads. Hash functions, the matcher for regular expressions, resolvers, clocks and the reads of a file
are parameters over which everything is quantified.

Some promises turn out not to hold on all inputs. For these there is a family of inputs on which they fail and the exact
condition under which they hold:

- A regular-expression rule is tried on every subdomain of a host, but its leftover entry is tried on the full host first.
  `FoundIsPlainScan` says when this makes no difference, `WordRuleIsLost` shows rules that are lost by it. Of the rules made
  from patterns, only those that assert the start of the line can be lost (`RegexOnlyRuleIsFound`, `OnlyLineStartsAreLost`).
- The header of the rule utilities promises that all pieces of a rule occur in the host in order. The search for the next
  piece starts a piece length after the last start, not behind the last find. The gate therefore never loses a match
  (`GateKeepsMatches`), but it keeps the order only for single pieces (`OrderIsKeptForOnePieceOnly`, `DisorderedHost`). An
  unanchored wildcard rule has no other test, so it is found for hosts that its pattern rejects unless it has one piece
  (`WildcardRuleMeaning`). The hosts that show this are names when twice the length of all pieces and their number add up to
  at most 63 and no piece has two dots in a row.
- The reader for files reports a last line of one character without a line ending differently from the reader for memory
  (`ReadersAgree`, `LastLineIsLost`); each reads its own positions back.
- CESU-8 output is shorter than computed exactly when there is an overlong sequence of three or four bytes
  (`LengthIsExact`, `OverlongIsShorter`).
- The reader of stamps takes a size without asking whether a byte is left for it. It reads behind the end exactly when the
  bytes reach the minimum size, have a well-formed address, and are cut where another size is due (`OverrunsExactly`); a
  stamp that ends with its address is such a one for every protocol but the plain one (`AddressAloneOverruns`).
- Discovery of a DNS64 prefix fails when a well-known address occurs in the prefix itself (`DiscoveryInvertsSynthesis`,
  `PrefixWithAddressIsLost`).
- Cache keys do not tell a dot inside a label from one between labels (`EqualKeys`, `MergedLabelsCollide`).
- Sizes on the stream are cut to 16 bits (`FramesParseBack`, `LongPayloadIsCut`, `RequestsArrive`).
- A connection can be closed between the look at it and its addition to the pool (`PooledStep`, `ClosedCanBePooled`).
- A failure of a connection answers all its requests. A reader that gives up closes it as well, and then the requests for
  which nothing was on the way stay without a result for good (`AbandonedForever`, `AnsweredAfterClosing`,
  `RequestIsAbandoned`).
- The early stop in the comparison with a route is harmless for contiguous masks; `EarlyStopIsExact` has the condition for
  all masks, and `Misread` an address that is let through for every other one.

Where names and behaviour differ, the model follows the behaviour: `has_higher_priority` holds when the right rule ranks
above the left one (`PriorityIsRank`), and the sort uses its negation, so only the outcome, descending rank, is modelled.

## Model

| member | source | states |
|---|---|---|
| `Filter.Filter.PutHashIntoTables` | dnsfilter/src/filter.cpp:155-202 | whichever of the two domain tables a hash moves to, it is never in both, and looking it up gives the earlier positions in order and then the new one; every other hash looks up as before |
| `Filter.Filter.LoadLine` | dnsfilter/src/filter.cpp:246-360 | one more line puts its positions where the line belongs by what it parses to (domain hashes, a five-character shortcut, a leftover entry, or nowhere) and leaves all earlier lines where they were |
| `Filter.Filter.Load` | dnsfilter/src/filter.cpp:363-430 | after loading, the three indexes and the leftovers hold exactly the places of all reported lines, for text in memory and for a file |
| `Filter.Filter.MatchAgainstLine` | dnsfilter/src/filter.cpp:445-509 | a line is accepted exactly when it parses to a rule that matches the host or one of its subdomains; then that rule, and nothing else, is appended |
| `Filter.Filter.MatchByFilePosition` | dnsfilter/src/filter.cpp:516-550 | the line read back at a position adds its text to the set of found texts exactly when it is accepted; a text already there is not added again |
| `Filter.Filter.SearchByDomains` | dnsfilter/src/filter.cpp:552-570 | adds exactly the accepted texts at the positions filed under the hash of some subdomain |
| `Filter.Filter.SearchByShortcuts` | dnsfilter/src/filter.cpp:572-587 | adds exactly the accepted texts at the positions filed under some five-character window of the host |
| `Filter.Filter.SearchInLeftovers` | dnsfilter/src/filter.cpp:589-601 | adds exactly the accepted texts of leftovers whose shortcut and regular expression pass on the full host |
| `Filter.Filter.Match` | dnsfilter/src/filter.cpp:612-627 | for every loaded source, host and hash function, collisions included, the set of found texts is that of a scan over all lines; what a line accepts in that scan is said on its text by the members of `DomainRules` and `PatternLines` |
| `Filter.CreateMatchContext` | dnsfilter/src/filter.cpp:629-646 | the lower-cased host and its subdomains: the host, and every suffix behind a dot that has a dot itself |
| `FilterIndex.IndexFindsWhatAScanFinds` | dnsfilter/src/filter.cpp:552-601 | lookup by domain hashes, by shortcut windows and in the leftovers, with the re-check of each line, finds the same texts as judging every line; nothing is assumed about the hash |
| `Engine.Engine.Match` | dnsfilter/src/engine.cpp:82-96 | over any number of loaded lists, in memory or on disk, the texts of the rules returned for a name are those that scans of the lists find, all of them accepted by plain scans; they are all that plain scans accept exactly when the gate on regular expressions does no harm in any list |
| `Engine.Engine.Add` | dnsfilter/src/engine.cpp:25-33 | one more list is loaded completely, and the others stay as they are |
| `FilterSpec.SubdomainsMeaning` | dnsfilter/src/filter.cpp:629-646 | a name is tried as a subdomain exactly when it is the host, or has a dot and follows a dot of the host |
| `FilterSpec.MatcherIsSound` | dnsfilter/src/rule_utils.cpp:342-446 | for every environment the parser has the two properties the index relies on: a rule text parses to a rule with that text, and the parts used for lookup are lower case (what the texts mean is stated in `DomainRules` and `PatternLines`) |
| `FilterMeaning.MatcherKeepsRegexTexts` | dnsfilter/src/rule_utils.cpp:342-446 | a regular-expression rule keeps its line as its text, and no other line has a rule with that text |
| `FilterMeaning.FoundIsPlainScan` | dnsfilter/src/filter.cpp:445-509 | what the filter finds is among what a plain scan accepts, and is all of it exactly when every regular-expression rule that accepts some subdomain also passes the gate on the full host |
| `FilterMeaning.SubdomainRuleMeaning` | dnsfilter/src/filter.cpp:467-477 | a rule over subdomains accepts a host exactly when the host is one of its names, or ends in one of them behind a dot (names without a dot only match as the whole host); `SubdomainLineMeaning` and `HostsLineMeaning` say which lines are such rules |
| `DomainRules.SubdomainLineMeaning` | dnsfilter/src/rule_utils.cpp:342-446 | a line of two bars or a scheme, a name, and what may follow it (a port, any of the marks) is found exactly for the name and, if it has a dot, for what ends in a dot and the name; with or without exception marker and `important` |
| `DomainRules.ExactLineMeaning` | dnsfilter/src/rule_utils.cpp:342-446 | with one bar before the name it is found exactly for the name, or for the usual form of the address it is |
| `DomainRules.BarsAndNameMeaning` | dnsfilter/src/rule_utils.cpp:342-446 | so two bars, d and `^` are found exactly for d and the names that end in a dot and d, and one bar, d and `^` exactly for d |
| `DomainRules.BareNameMeaning` | dnsfilter/src/rule_utils.cpp:285-297 | a domain name alone on its line is found exactly for itself, in lower case |
| `DomainRules.HostsLineMeaning` | dnsfilter/src/rule_utils.cpp:128-157 | a line of an address and names has a rule with that address and no modifiers, found exactly for the names and what ends in a dot and one of them |
| `DomainRules.CommentIsCut` | dnsfilter/src/rule_utils.cpp:128-130 | what is read of a hosts line with a trailing comment is the line without the comment and the blank before it |
| `DomainRules.LineProps` | dnsfilter/src/rule_utils.cpp:342-446 | the rule of a line is an exception exactly when the line starts with `@@`, and has `important` or `badfilter` exactly when that word is among its modifiers; it keeps its line as text |
| `DomainRules.LineModifiers` | dnsfilter/src/rule_utils.cpp:158-188 | a line has a rule only if each of its modifiers is one of the two words, and none stands there twice |
| `DomainRules.PatternProps` | dnsfilter/src/rule_utils.cpp:342-446 | the same three properties for every line that is neither a hosts line nor a bare name, however it is written |
| `DomainRules.IgnoredLines` | dnsfilter/src/rule_utils.cpp:342-389 | comments, empty lines and patterns of dots and wildcards only have no rule |
| `DomainRules.LinesWithARule` | dnsfilter/src/rule_utils.cpp:342-446 | a line has a rule only if its pattern has a character other than dots and wildcards, at most 255 of them and no 64 in a row without a dot, and its modifiers are known and different; it has one then, if it is for cancelling another or compared as a name |
| `PatternLines.LiteralAccepts` | dnsfilter/src/rule_utils.cpp:448-494 | the expression made from a text without wildcards accepts a name exactly when the text stands where the anchors let it start, and at the end if that is asserted |
| `PatternLines.AnchoredLineMeaning` | dnsfilter/src/rule_utils.cpp:342-446 | a line on a pattern that asserts something is found for a lower-case name exactly when the pattern, read directly, accepts it |
| `PatternLines.WordLineMeaning` | dnsfilter/src/rule_utils.cpp:194-283 | one bar and a word: names that start with it; two bars: also names in which it follows a dot; a word and a stop: names that end in it |
| `PatternLines.WordAloneMeaning` | dnsfilter/src/rule_utils.cpp:342-446 | a word without dots alone on its line is found exactly for the names that contain it |
| `PatternLines.WildcardLineMeaning` | dnsfilter/src/filter.cpp:432-481 | a line of pieces and wildcards is found for all lower-case names that its pattern accepts, and for no other exactly when it has one piece |
| `PatternLines.RegexLineMeaning` | dnsfilter/src/rule_utils.cpp:342-446 | a line with a regular expression between slashes is found only for names that the expression matches, and for all of them when it has no pieces to look for |
| `FilterMeaning.PatternRuleMeaning` | dnsfilter/src/rule_utils.cpp:448-494 | for wildcard rules the gates lose nothing: the rule is found for a lower-case host exactly when the wildcard pattern, read directly, accepts it |
| `WildcardRules.WildcardRuleMeaning` | dnsfilter/src/filter.cpp:432-481 | a rule on an unanchored wildcard is found for every lower-case host that the pattern accepts, and for those only exactly when the pattern has one piece, as names of at most 63 bytes already show for short pieces |
| `RegexOnlyRules.AnchoredAccepts` | dnsfilter/src/rule_utils.cpp:448-494 | the expression of a word at the start of the line accepts exactly the names that start with it, or equal it when the end is asserted, too |
| `RegexOnlyRules.RegexOnlyRuleIsFound` | dnsfilter/src/filter.cpp:488-601 | a regular-expression rule made from a pattern that accepts some subdomain is found when it does not assert the start of the line; when it does, exactly on the hosts that start with its word |
| `RegexOnlyRules.OnlyLineStartsAreLost` | dnsfilter/src/filter.cpp:488-601 | hence a list of such rules is searched like by a plain scan exactly when each rule that asserts the start of the line and accepts some subdomain starts the host itself |
| `LostRules.WordRule` | dnsfilter/src/rule_utils.cpp:342-446 | a rule of a bar and a word, for every word, is parsed as a regular expression only |
| `LostRules.WordAccepts` | dnsfilter/src/rule_utils.cpp:448-494 | its expression accepts exactly the names that start with the word |
| `LostRules.WordRuleIsLost` | dnsfilter/src/filter.cpp:589-601 | hence on every host with a subdomain that starts with the word, while the host does not, the rule matches and is not found: the plain-scan equality fails for this whole family |
| `Shortcuts.MatchShortcutsLoop` | dnsfilter/src/filter.cpp:432-443 | the loop decides the recursive definition in which the next search starts a part length, not a found position, further on |
| `Shortcuts.InOrderIsFound` | dnsfilter/src/filter.cpp:432-443 | pieces that occur in order without overlap are always found |
| `Shortcuts.RegexReadsAsPattern` | dnsfilter/src/rule_utils.cpp:448-494 | tokenizing the generated regular expression gives back the pattern: every character literal, a star any text, the anchors of the mode |
| `Shortcuts.DomainPatternsArePlain` | dnsfilter/src/rule_utils.cpp:86-111 | every pattern over the domain character set, and every IP pattern without brackets, is one for which the gate is shown to lose nothing |
| `Shortcuts.GateKeepsMatches` | dnsfilter/src/rule_utils.cpp:327-340 | when the generated expression accepts a lower-case host, the extracted pieces occur in it in order without overlap and the gate lets it through |
| `ShortcutOrder.OrderIsKeptForOnePieceOnly` | dnsfilter/src/rule_utils.h:21-23 | the documented promise that all pieces are found in order holds on every host exactly when there is one piece; for any longer list of pieces a host is constructed on which it fails, and this is a name of at most 63 bytes when twice their lengths and their number are no more and no piece has two dots in a row |
| `ShortcutOrder.DisorderedHost` | dnsfilter/src/filter.cpp:432-443 | that host, for every list of two or more pieces: let through, without the pieces in order, in lower case if they are |
| `RuleSyntax.ExtractRegexShortcuts` | dnsfilter/src/rule_utils.cpp:327-340 | the loop yields the maximal runs without special characters, in order |
| `RuleSyntax.EscapeLoop` | dnsfilter/src/rule_utils.cpp:466-493 | the loop puts a dot before each star and a backslash before each dot, and changes nothing else |
| `RuleSyntax.RuleTexts` | dnsfilter/src/rule_utils.cpp:342-446 | the text kept with a rule parses to a rule with that same text; it differs from the line only for hosts lines with a trailing comment |
| `RuleSyntax.HostsRulesArePlain` | dnsfilter/src/rule_utils.cpp:128-157 | a rule with an address has no modifiers and matches subdomains |
| `RuleSyntax.RegexIsOfThePattern` | dnsfilter/src/rule_utils.cpp:448-461 | the second reading of a rule text, for its expression, cuts out the same pattern as the first |
| `RuleText.BodyInfo` | dnsfilter/src/rule_utils.cpp:194-283 | what is read from every pattern text: one bar asserts the start of the line, two bars or a scheme that of a domain, a port or marks behind it, each at most once and in any order, the end; nothing of these is left in the pattern |
| `RuleText.ModifiersMeaning` | dnsfilter/src/rule_utils.cpp:158-188 | a list of modifiers is accepted exactly when each is known and sets something new, and it sets what its words say |
| `RuleText.TextParsesAlike` | dnsfilter/src/rule_utils.cpp:342-446 | the text kept with a rule parses to that very rule, pattern and properties included |
| `Lines.ForEachLine` | common/src/utils.cpp:127-150 | the loop reports exactly the lines of the text with their positions, trimmed |
| `Lines.LinesOfText` | common/src/utils.cpp:127-150 | the lines of a text: its first one, up to a carriage return or a line feed and trimmed, at position 0, and then those of what follows, with positions moved by as much |
| `Lines.OneLine` | common/src/utils.cpp:127-150 | a text without line endings is one line, trimmed, or none if it is empty |
| `Text.TrimMeaning` | common/include/ag_utils.h:102-124 | trimming takes off all white space at both ends and nothing else |
| `Lines.MemoryReadBack` | common/src/utils.cpp:152-167 | every position reported for a text in memory reads back as exactly the line reported there |
| `Lines.ForEachFileLine` | common/src/file.cpp:96-134 | for every placement of chunk boundaries, including breaks inside a line ending, the lines reported are those of the whole content |
| `Lines.ReadFileLine` | common/src/file.cpp:136-167 | for every placement of chunk boundaries, the line read at a position is the one that starts there |
| `Lines.FileReadBack` | common/src/file.cpp:136-167 | every position reported for a file reads back as exactly the line reported there |
| `Lines.ReadersAgree` | common/src/file.cpp:96-134 | the two readers report the same lines exactly when the text is not empty and does not end in an unterminated line of one character |
| `Lines.LastLineIsLost` | common/src/file.cpp:96-134 | behind any text and a line ending, a last line of one character is reported from memory and not from a file, and it is the only difference |
| `Lines.EmptyTextDiffers` | common/src/file.cpp:96-134 | an empty file is reported as one empty line, an empty text as none |
| `EffectiveRules.PriorityIsRank` | dnsfilter/src/engine.cpp:98-114 | the comparison scans a table of property combinations; it holds exactly when the rank of the left rule is below that of the right one, so it orders rules totally up to equal rank |
| `EffectiveRules.PriorityMeaning` | dnsfilter/src/engine.cpp:98-114 | it holds exactly when the right rule is important and the left is not; or they agree in that and only the right is an exception; or they agree in both and only the right has an address |
| `EffectiveRules.SortByPriority` | dnsfilter/src/engine.cpp:130-131 | the outcome of the sort: a permutation in descending rank |
| `EffectiveRules.GetEffectiveRules` | dnsfilter/src/engine.cpp:116-174 | the result is a selection from some sort of the rules without badfilter ones, by the texts the badfilter rules cancel |
| `EffectiveRules.EffectiveMeaning` | dnsfilter/src/engine.cpp:116-174 | whatever the order of the input: nothing is selected exactly when every rule is cancelled; otherwise the selected rules are live and of the highest rank, and they are one rule or all the hosts rules |
| `EffectiveRules.LiveMeaning` | dnsfilter/src/engine.cpp:116-174 | a live rule is in the list, is no badfilter rule, and no badfilter rule of the list is written for its text |
| `EffectiveRules.SelectedProperties` | dnsfilter/src/engine.cpp:116-174 | what is selected is important exactly when a live rule is, and an exception exactly when there is a live exception of the same importance |
| `EffectiveRules.HostsAreSelected` | dnsfilter/src/engine.cpp:133-160 | rules with an address are selected exactly when one is live and no live rule has a modifier |
| `EffectiveRules.BadfilterCancels` | dnsfilter/src/rule_utils.cpp:496-513 | a badfilter rule is written for its own text without the modifier, wherever that stands among the modifiers |
| `HostsRules.HostsRuleIsNotCancelled` | dnsfilter/src/rule_utils.cpp:496-513 | no parsed badfilter rule is written for the text of a parsed hosts rule |
| `HostsRules.ParsedHostsArePlain` | dnsfilter/src/engine.cpp:116-174 | so all lists of parsed rules meet the condition on hosts rules under which EffectiveMeaning is stated |
| `EffectiveRules.Forwarder.ApplyFilter` | proxy/src/dns_forwarder.cpp:1107-1128 | one name of a response: the rules matched for it and those effective so far are judged together; the query is blocked exactly when, among the live ones, an important rule meets no important exception, or none is important, there is some, and none is an exception |
| `EffectiveRules.BlocksAsItShould` | proxy/src/dns_forwarder.cpp:1107-1128 | every effective selection blocks exactly under that condition on the live rules |
| `EffectiveRules.ChainKeepsHighest` | proxy/src/dns_forwarder.cpp:1107-1128 | without badfilter rules, after any number of names the effective rules are those of the highest rank matched by any of them |
| `EffectiveRules.ExceptionYieldsToHigherRank` | proxy/src/dns_forwarder.cpp:1107-1128 | an exception that was effective is overridden later only by a rule of strictly higher rank |
| `Cesu8.ComputeLen` | common/src/cesu8.cpp:7-53 | the loop computes the length of the abstract first pass; a null string gives -1 |
| `Cesu8.PassesAgree` | common/src/cesu8.cpp:7-53 | on every byte string, valid or not, both passes stand at the same place after each byte, the second has written at most what the first has counted, and exactly that while no completed sequence shrinks |
| `Cesu8.LengthIsExact` | common/src/cesu8.cpp:77-157 | at most the computed length is written, and exactly that length if and only if no three bytes are 0xE0, one of 0x80 to 0x9F and a continuation byte, and no four are 0xF0, one of 0x80 to 0x8F and two continuation bytes |
| `Cesu8.OverlongIsShorter` | common/src/cesu8.cpp:77-157 | wherever three such bytes stand, less is written than was counted |
| `Cesu8.OverlongFourIsShorter` | common/src/cesu8.cpp:77-157 | so it is for four such bytes |
| `Cesu8.Utf8ToCesu8NoAlloc` | common/src/cesu8.cpp:77-157 | into any buffer longer than the computed length, every write is in bounds, no guard drops a sequence, and the terminated transcoding is written |
| `Cesu8.Utf8ToCesu8` | common/src/cesu8.cpp:57-75 | the allocated result is the whole terminated transcoding |
| `Cesu8Meaning.TranscodesToUnits` | common/src/cesu8.cpp:82-153 | valid UTF-8 becomes the bytes of its UTF-16 code units, one to three bytes each |
| `Cesu8Meaning.OutputDecodesToUtf16` | common/src/cesu8.cpp:82-153 | decoding the output gives exactly the UTF-16 code units of the input, surrogate pairs included |
| `Cesu8Meaning.StrayByteIsReplaced` | common/src/cesu8.cpp:82-153 | behind any valid text, a byte that starts no sequence becomes the bytes of the code unit FFFD |
| `Cesu8Meaning.CutSequenceIsReplaced` | common/src/cesu8.cpp:82-153 | so does a sequence that is cut off by a byte below 0x80, and that byte is kept |
| `Base64.UrlSafeTable` | dnsstamp/src/base64.cpp:14-29 | only the two characters of the URL-safe alphabet are replaced |
| `Base64.UrlSafeBasis` | dnsstamp/src/base64.cpp:31-42 | the reverse table is exchanged at those characters and nowhere else |
| `Base64.TablesAreInverse` | dnsstamp/src/base64.cpp:14-42 | both alphabets and their reverse tables are inverse on all 64 values, and padding is no character of either |
| `Base64.Alphabet` | dnsstamp/src/base64.cpp:14-29 | the alphabets: A to Z, a to z, 0 to 9, and `+` and `/` or `-` and `_` |
| `Base64.GroupNumber` | dnsstamp/src/base64.cpp:78-108 | up to three octets and their values are the same number of 24 bits, missing ones counting as zero |
| `Base64.EncodeToBase64` | dnsstamp/src/base64.cpp:78-108 | the loop and its tail compute the encoding, padded only in the standard alphabet |
| `Base64.EncodedSize` | dnsstamp/src/base64.cpp:78-108 | the standard form is filled up with `=` to a multiple of four characters, the URL-safe one has no more than it needs |
| `Base64.DecodeBase64` | dnsstamp/src/base64.cpp:110-144 | the loops compute the decoding, or nothing for a bad character or length |
| `Base64.Base64RoundTrip` | dnsstamp/src/base64.cpp:78-144 | decoding an encoding gives the data back, for all data and both alphabets |
| `Base64.CanonicalTexts` | dnsstamp/src/base64.cpp:110-144 | encoding a decoded text gives the text back exactly when it has no padding and its unused bits are zero |
| `DnsStamp.WriteHashes` | dnsstamp/src/dns_stamp.cpp:114-126 | all hashes behind their sizes, with the continuation bit on all but the last; one zero for none |
| `DnsStamp.Str` | dnsstamp/src/dns_stamp.cpp:304-319 | the text form is the prefix and the encoding of the fields of the protocol, byte by byte as `PlainIsWritten` and the others say |
| `DnsStamp.ReadHashesLoop` | dnsstamp/src/dns_stamp.cpp:177-193 | the loop reads hashes while the continuation bit is set and keeps those that are not empty; a hash longer than the bytes left is refused, and a size that is due behind the end is the outcome `OutOfBounds`, as nothing is checked before it is read |
| `StampReader.Reader.ReadBytesWithSize` | dnsstamp/src/dns_stamp.cpp:61-100 | one sized field is read and the cursor is exactly behind it, or it is refused for its size, or its size itself lies behind the end (the overrun, which the source does not check for) |
| `StampReader.Reader.ReadFields` | dnsstamp/src/dns_stamp.cpp:217-236 | the fields behind the address are read in the order of the protocol; success leaves the cursor at the end of the bytes |
| `StampReader.NewStamp` | dnsstamp/src/dns_stamp.cpp:217-236 | the cursor-based reader is the functional one, with the same errors |
| `StampReader.ParseStamp` | dnsstamp/src/dns_stamp.cpp:321-349 | a text is parsed as the functional reader says: prefix, decoding, protocol byte, minimum size, fields, trailing bytes; which bytes these are is stated by `PlainLayout` and the others |
| `StampLayout.PlainLayout` | dnsstamp/src/dns_stamp.cpp:271-273 | plain DNS: the bytes 0, eight bytes of properties with the lowest first, the sized address, and nothing behind it parse to the stamp of these fields if there are at least 17 bytes and the address is well-formed, with port 53 added to a bare address; otherwise to the error |
| `StampLayout.DnsCryptLayout` | dnsstamp/src/dns_stamp.cpp:275-280 | DNSCrypt: the bytes 1, eight bytes of properties with the lowest first, the sized address, and public key and provider name parse to the stamp of these fields if there are at least 66 bytes and the address is well-formed, with port 443 added to a bare address; otherwise to the error |
| `StampLayout.DohLayout` | dnsstamp/src/dns_stamp.cpp:282-288 | DNS over HTTPS: the bytes 2, eight bytes of properties with the lowest first, the sized address, and hashes, provider name and path parse to the stamp of these fields if there are at least 19 bytes and the address is well-formed, with port 443 added to a bare address; otherwise to the error |
| `StampLayout.TlsLayout` | dnsstamp/src/dns_stamp.cpp:290-295 | DNS over TLS: the bytes 3, eight bytes of properties with the lowest first, the sized address, and hashes and provider name parse to the stamp of these fields if there are at least 19 bytes and the address is well-formed, with port 853 added to a bare address; otherwise to the error |
| `StampLayout.DoqLayout` | dnsstamp/src/dns_stamp.cpp:297-302 | DNS over QUIC: the bytes 4, eight bytes of properties with the lowest first, the sized address, and hashes and provider name parse to the stamp of these fields if there are at least 19 bytes and the address is well-formed, with port 8853 added to a bare address; otherwise to the error |
| `StampLayout.PlainIsWritten` | dnsstamp/src/dns_stamp.cpp:238-240 | the text of a stamp for plain DNS is the encoding of those bytes, with the address without port 53 |
| `StampLayout.DnsCryptIsWritten` | dnsstamp/src/dns_stamp.cpp:242-247 | the text of a stamp for DNSCrypt is the encoding of those bytes, with the address without port 443 |
| `StampLayout.DohIsWritten` | dnsstamp/src/dns_stamp.cpp:249-255 | the text of a stamp for DNS over HTTPS is the encoding of those bytes, with the address without port 443 |
| `StampLayout.TlsIsWritten` | dnsstamp/src/dns_stamp.cpp:257-262 | the text of a stamp for DNS over TLS is the encoding of those bytes, with the address without port 853 |
| `StampLayout.DoqIsWritten` | dnsstamp/src/dns_stamp.cpp:264-269 | the text of a stamp for DNS over QUIC is the encoding of those bytes, with the address without port 8853 |
| `StampLayout.HostAlone` | common/src/net_utils.cpp:17-50 | an address without colons and brackets is a host without a port, and takes the default port exactly when it is an IP address |
| `StampLayout.HostAndPort` | common/src/net_utils.cpp:17-50 | a host, a colon and a port are split at the colon, with an error exactly when the port is empty |
| `StampLayout.BracketedHost` | common/src/net_utils.cpp:17-50 | so is a host in brackets, which are taken off |
| `StampLayout.BracketedHostAndPort` | common/src/net_utils.cpp:17-50 | also when a colon and a port follow, again with an error exactly when the port is empty |
| `StampRoundTrip.HashesFieldIsRead` | dnsstamp/src/dns_stamp.cpp:177-193 | a written list of hashes of 1 to 127 bytes is read back as itself, wherever it stands |
| `StampRoundTrip.StampRoundTripsExactly` | dnsstamp/src/dns_stamp.cpp:304-349 | parsing the text of a stamp gives the stamp back exactly when its irrelevant fields are empty, its sizes fit, its address is kept by the port rule and its encoding reaches the minimum size |
| `StampOverrun.BytesOverrun` | dnsstamp/src/dns_stamp.cpp:61-236 | for every protocol, reading the bytes of a stamp overruns exactly when they reach the minimum size, have a well-formed address, and what follows is cut at a border: never for plain; nothing or one field for DNSCrypt; hashes that all announce another one, or a whole list of hashes, for TLS and QUIC; these, or a list and one field, for HTTPS |
| `StampOverrun.OverrunsExactly` | dnsstamp/src/dns_stamp.cpp:321-349 | parsing a text overruns exactly when it decodes to such bytes of a known protocol |
| `StampOverrun.AddressAloneOverruns` | dnsstamp/src/dns_stamp.cpp:61-65 | a family of texts that overrun: any properties and any well-formed address that reaches the minimum size, and nothing behind it |
| `StampOverrun.WrittenStampsDoNotOverrun` | dnsstamp/src/dns_stamp.cpp:304-349 | the text of a stamp whose fields fit their sizes never does |
| `Dns64.FindPref64Loop` | proxy/src/dns64.cpp:66-75 | the first of the two well-known addresses that yields a prefix decides |
| `Dns64.Synthesize` | proxy/src/dns64.cpp:128-149 | an address exactly for valid prefixes and four-byte addresses: prefix, address and zeros around a zero at byte 8 |
| `Dns64.EmbedByte` | proxy/src/dns64.cpp:128-149 | each of its 16 bytes, from the prefix, the address, or zero |
| `Dns64.Formats` | proxy/src/dns64.cpp:128-149 | the six formats, written out for prefixes of 4, 5, 6, 7, 8 and 12 bytes |
| `Dns64.DiscoveryInvertsSynthesis` | proxy/src/dns64.cpp:25-75 | for every valid prefix, discovery on the address made from it gives it back exactly when the well-known address does not occur in it and, for the second one, the first does not occur just once behind position 3 of the prefix without byte 8 |
| `Dns64.PrefixWithAddressIsLost` | proxy/src/dns64.cpp:25-75 | no valid prefix that has a well-known address in it, wherever it stands, is found from that address |
| `Dns64.PrefixEndingInAddressIsCut` | proxy/src/dns64.cpp:25-75 | a prefix of four bytes and the first address is read from the second one as those four bytes alone |
| `Dns64.CleanPrefixIsFound` | proxy/src/dns64.cpp:25-75 | so a prefix with neither address in it, read with or without byte 8, is always found |
| `Dns64.DiscoveredPrefixExplains` | proxy/src/dns64.cpp:25-59 | conversely every prefix found is valid, and synthesis from it and a well-known address gives the scanned address through the last embedded byte |
| `Dns64.DiscoverPrefixes` | proxy/src/dns64.cpp:95-120 | the prefixes of an answer section, each once, in order of first appearance, and none that no answer gave |
| `Dns64.DiscoverOne` | proxy/src/dns64.cpp:95-120 | a server that synthesizes from one clean prefix is found to use that prefix and no other |
| `TcpFraming.PayloadParser.NextPayload` | proxy/src/dnsproxy_listener.cpp:313-331 | hands out the first payload of the buffered bytes if all of it is there, and otherwise changes nothing but its place in the two-step state |
| `TcpFraming.PayloadParser.Read` | proxy/src/dnsproxy_listener.cpp:436-453 | a persistent connection takes exactly the payloads that are complete now and keeps the rest; any other one takes the first, if it is complete, and stops reading then; nothing is lost either way |
| `TcpFraming.ParseContinues` | proxy/src/dnsproxy_listener.cpp:293-332 | parsing a longer stream continues where the parse of its beginning stopped |
| `TcpFraming.FirstPayload` | proxy/src/dnsproxy_listener.cpp:293-332 | the first two bytes are the size of the first payload, higher byte first; it is handed out once that many bytes follow, and then what is behind it is parsed |
| `TcpFraming.FrameBytes` | proxy/src/dnsproxy_listener.cpp:394-407 | a frame is the size in two bytes, higher byte first, and the payload |
| `TcpFraming.Run` | proxy/src/dnsproxy_listener.cpp:293-332 | for every cut of the stream into pushes and every interleaving with requests for payloads, what was handed out and what is still buffered are the payloads and the rest of the whole stream |
| `TcpFraming.FramesParseBack` | proxy/src/dnsproxy_listener.cpp:394-407 | parsing framed payloads gives the list back, with nothing left, exactly when each has at most 65535 bytes |
| `TcpFraming.LongPayloadIsCut` | proxy/src/dnsproxy_listener.cpp:394-407 | a payload of more than 65535 bytes, wherever it stands in the list, is read as its beginning of the length modulo 65536, so the list is not read back |
| `TcpFraming.Transfer` | proxy/src/dnsproxy_listener.cpp:293-332 | what is framed on one side is read on the other, whatever pieces the stream arrives in |
| `LruCache.LruCache.Insert` | common/include/ag_cache.h:71-91 | the entry becomes the first; a new one pushes out the last when the cache is full; the result says whether the key was new |
| `LruCache.LruCache.Get` | common/include/ag_cache.h:101-110 | the entry becomes the first and its own node is returned; a missing key changes nothing |
| `LruCache.LruCache.MakeLru` | common/include/ag_cache.h:116-119 | the entry becomes the last |
| `LruCache.LruCache.Erase` | common/include/ag_cache.h:125-132 | the entry of the key disappears, the others keep their order |
| `LruCache.LruCache.Clear` | common/include/ag_cache.h:137-141 | nothing is left |
| `LruCache.LruCache.Size` | common/include/ag_cache.h:146-148 | the size of the map is the number of entries |
| `LruCache.LruCache.SetCapacity` | common/include/ag_cache.h:162-175 | the first entries up to the capacity are kept, zero meaning 128 |
| `LruRecency.CacheHoldsMostRecent` | common/include/ag_cache.h:71-110 | after every run of inserts and lookups at one capacity the entries are the keys of latest touch, latest first, each with the value inserted last; a touched key is missing only when the cache is full of later ones |
| `LruRecency.HeldIffRecent` | common/include/ag_cache.h:71-110 | a key is held exactly when it was touched and fewer than the capacity of other keys were touched since |
| `ResponseCache.ComputeMinRrTtl` | proxy/src/dns_forwarder.cpp:829-844 | the three loops compute the minimum over all sections |
| `ResponseCache.MinTtlMeaning` | proxy/src/dns_forwarder.cpp:829-844 | a positive minimum is the TTL of some record and no TTL is below it; it is zero exactly when some TTL is zero, or none is below the largest 32-bit value |
| `ResponseCache.ResponseCache.PutResponse` | proxy/src/dns_forwarder.cpp:847-903 | exactly the cacheable responses are kept, with the question removed and the authoritative flag cleared, until their least TTL has run out |
| `ResponseCache.ResponseCache.CreateResponse` | proxy/src/dns_forwarder.cpp:765-827 | a kept response is served under the id and question of the request with the seconds left; an expired one with one second, and it becomes the entry to go first |
| `ResponseRuns.ServedMeaning` | proxy/src/dns_forwarder.cpp:765-827 | over every run, what is served is the response put last for the key under the id and question of the request, with one TTL on all records: the seconds left of the least TTL that was put, rounded up, or one if none are left; it is flagged as expired exactly from then on |
| `ResponseRuns.CacheableMeaning` | proxy/src/dns_forwarder.cpp:847-903 | the responses to keep, spelled out: whole, code 0, no unsupported extensions, one question, answered by a record of its type if that is A (1) or AAAA (28), no TTL of zero and some below the largest value |
| `ResponseRuns.KeptIsServed` | proxy/src/dns_forwarder.cpp:765-903 | after any run, a response is served like that to the next lookup of its key exactly when it is one to keep; otherwise putting it changes nothing |
| `ResponseRuns.ServedTtlNeverRises` | proxy/src/dns_forwarder.cpp:777-826 | between two puts of a key the TTL served for it never rises, and an expired response stays expired |
| `CacheKey.GetCacheKey` | proxy/src/dns_forwarder.cpp:37-69 | the loop over the wire name, with a one-byte position, computes prefix and dotted lower-case name for every well-formed name |
| `CacheKey.EqualKeys` | proxy/src/dns_forwarder.cpp:37-69 | for all well-formed names, keys are equal exactly when type, class and both flags agree and the names agree up to case and up to which dots separate labels |
| `CacheKey.EqualKeysWithoutDots` | proxy/src/dns_forwarder.cpp:37-69 | for names without dot bytes: exactly when the names agree up to case |
| `CacheKey.LowerMeaning` | proxy/src/dns_forwarder.cpp:37-69 | labels are taken as equal exactly when they have the same length and their bytes differ at most in the case of a letter |
| `CacheKey.MergedLabelsCollide` | proxy/src/dns_forwarder.cpp:37-69 | with dot bytes two different names share a key: any two labels, and the one label that joins them by a dot |
| `FramedConnection.Connection.Write` | upstream/src/dns_framed.cpp:97-129 | a request is refused when it has no id or the connection is closed; otherwise its frame is written, its entry is empty, and the id returned is its first two bytes, higher byte first |
| `FramedConnection.IdsAreBytes` | upstream/src/dns_framed.cpp:97-129 | messages have the same id exactly when they have the same first two bytes |
| `FramedConnection.WriteTouchesOneEntry` | upstream/src/dns_framed.cpp:112-121 | the entry of every request with other first two bytes stays as it is |
| `FramedConnection.Connection.TakeFrame` | upstream/src/dns_framed.cpp:165-183 | the first whole message, if its size is at least two, is removed from the input; nothing else changes |
| `FramedConnection.Connection.StoreReply` | upstream/src/dns_framed.cpp:184-191 | a message is stored under its first two bytes, higher byte first, exactly if that id is in the table |
| `FramedConnection.StoreTouchesOneEntry` | upstream/src/dns_framed.cpp:184-191 | it becomes the result of the request with the same first two bytes, if there is one, and of no other |
| `FramedConnection.Connection.Fail` | upstream/src/dns_framed.cpp:217-236 | closes, and gives an error to exactly the requests without a result |
| `FramedConnection.Connection.TakeResult` | upstream/src/dns_framed.cpp:241-274 | hands out the result of an answered request and removes the entry |
| `FramedProtocol.RunKeeps` | upstream/src/dns_framed.cpp:97-274 | the invariant of all reachable states under any interleaving of writers, readers, the event thread and the pool |
| `FramedProtocol.ResultsAreGenuine` | upstream/src/dns_framed.cpp:97-274 | after every run, results were handed out for different requests; every reply starts with the first two bytes of its request and was stored after that was written; a stored reply starts with the id it is stored under |
| `FramedProtocol.HeldMessageAnswers` | upstream/src/dns_framed.cpp:179-191 | stored, but not always taken from the stream after it: a request written while the event thread holds a message of its id is answered by that message |
| `FramedProtocol.ClosedForever` | upstream/src/dns_framed.cpp:97-129 | a closed connection stays closed, accepts no request and writes nothing |
| `FramedProtocol.FailureAnswersTheRest` | upstream/src/dns_framed.cpp:217-236 | an end of stream or an error replaces no result and leaves no request without one |
| `FramedProtocol.FailedForever` | upstream/src/dns_framed.cpp:197-274 | from then on every request keeps its result until it is handed out, and every reader waiting for one can proceed |
| `FramedAbandoned.AbandonedForever` | upstream/src/dns_framed.cpp:156-274 | a request without a result in a closed connection, with no failure and no message of its id on the way, has none at the end of every run |
| `FramedAbandoned.AnsweredAfterClosing` | upstream/src/dns_framed.cpp:156-274 | after closing, some run answers a request exactly when the event thread is past its look at the connection, with a failure to report or a message of that id before it |
| `FramedAbandoned.RequestIsAbandoned` | upstream/src/dns_framed.cpp:241-274 | in every open state between callbacks: after a request is written and a reader gives up on any id without a result, the request is abandoned |
| `FramedAbandoned.FirstRequestIsAbandoned` | upstream/src/dns_framed.cpp:241-274 | so it is in a run of four steps from the start, for every request |
| `FramedAbandoned.ClosingSteps` | upstream/src/dns_framed.cpp:197-274 | only a failure and a reader that gives up close; the first abandons no request, the second exactly those for which nothing is on the way |
| `FramedProtocol.ResultsStay` | upstream/src/dns_framed.cpp:156-274 | a result leaves the table only by being handed out, or is replaced by a new request or another message of the same id |
| `FramedProtocol.RequestsArrive` | upstream/src/dns_framed.cpp:112-121 | what the other side parses is the accepted requests in order, exactly when each has at most 65535 bytes |
| `FramedProtocol.StalledForever` | upstream/src/dns_framed.cpp:166-177 | behind a message shorter than an id no message is ever taken, whatever arrives |
| `FramedProtocol.PooledStep` | upstream/src/dns_framed.cpp:276-294 | a step puts a closed connection into the lists of the pool exactly when it adds one that was closed after the event thread had looked |
| `FramedProtocol.ClosedCanBePooled` | upstream/src/dns_framed.cpp:197-211 | and a run in which this happens |
| `Bootstrapper.ResolverResult` | upstream/src/resolver.cpp:164-207 | the addresses are those found by either exchange; there is no error exactly when neither failed and there is an address, and else the error is that of the exchange that failed last |
| `Bootstrapper.TryResolvers` | upstream/src/bootstrapper.cpp:36-59 | the resolvers are tried in their order, each at most once, until one leaves too little time; there is an error exactly when there is no address |
| `Bootstrapper.AnswerAt` | upstream/src/bootstrapper.cpp:36-59 | each resolver is given half of the time left, and at least 50 milliseconds |
| `Bootstrapper.GoesOnMeaning` | upstream/src/bootstrapper.cpp:36-59 | the next one is tried exactly when more than that least time is left |
| `Bootstrapper.OrderMeaning` | upstream/src/bootstrapper.cpp:36-59 | the rotations leave the successes, then the resolvers not tried, then the failures, each in their original order |
| `Bootstrapper.OrderIsPermutation` | upstream/src/bootstrapper.cpp:36-59 | no resolver is lost or doubled |
| `Bootstrapper.Bootstrapper.Resolve` | upstream/src/bootstrapper.cpp:22-71 | an address as server name resolves to itself, an empty list is an error, otherwise the outcome of the attempts; always an error exactly when there is no address |
| `Bootstrapper.Bootstrapper.Get` | upstream/src/bootstrapper.cpp:105-118 | a cached answer is returned and changes nothing; a refusal changes nothing; otherwise the result is the address given as server name, the error for an empty list, or what the attempts on the list found, the list is rotated as they say, and the outcome updates the streak and the cache; the assertion of the source holds |
| `Bootstrapper.Bootstrapper.RemoveResolved` | upstream/src/bootstrapper.cpp:120-124 | the address is gone from the cache, the others stay |
| `Disabler.Times.Check` | upstream/src/bootstrapper.cpp:73-89 | refuses exactly when the streak is too long and not yet forgotten, and reports after how many milliseconds it will not |
| `Disabler.Times.Update` | upstream/src/bootstrapper.cpp:91-102 | a failure starts or continues the streak, a success ends it |
| `Disabler.RefusalMeaning` | upstream/src/bootstrapper.cpp:73-118 | over every run, a refusal means that all attempts since some time failed, the last more than 7000 ms after the first, and that it is less than 14000 ms after that first one |
| `Disabler.RefusalsEnd` | upstream/src/bootstrapper.cpp:73-89 | calls refused in a row lie within less than 7000 ms |
| `Disabler.TriesAgain` | upstream/src/bootstrapper.cpp:73-102 | the first call after that is let through, and its failure starts a new streak |
| `Disabler.SuccessEndsStreak` | upstream/src/bootstrapper.cpp:91-102 | after a success no call is refused before a new streak |
| `Routes.MatchesLoop` | common/src/route_resolver.cpp:216-223 | the loop compares masked bytes up to the first zero byte of the mask |
| `Routes.EarlyStopIsExact` | common/src/route_resolver.cpp:216-223 | for every mask, contiguous or not, the early stop agrees with the full masked comparison on all destinations exactly when none could agree up to there, or mask and address are zero from there on |
| `Routes.Misread` | common/src/route_resolver.cpp:216-223 | for every route that does not meet this, an address that the early stop lets through and the full comparison does not |
| `Routes.MatchesMeansPrefix` | common/src/route_resolver.cpp:216-223 | for contiguous masks and masked addresses a route matches exactly the destinations whose first bits are those of its address |
| `Routes.GreaterMeansLonger` | common/src/route_resolver.cpp:226-229 | the lexicographic order of contiguous masks is the order of their prefix lengths |
| `Routes.Resolve` | common/src/route_resolver.cpp:199-207 | the first matching route of the table decides, and there is no answer exactly when none matches |
| `Routes.ResolveLongest` | common/src/route_resolver.cpp:199-207 | however the sort orders equal masks, the answer comes from a matching route of maximal prefix length, and there is none exactly when no route shares its prefix with the destination |

## Left out

- Filter.Filter.Match: does not model `search_badfilter_rules`, which appends to the vector it iterates over; badfilter rules are an input of the choice of effective rules instead.
- Engine.Engine.Match: leaves out the badfilter rules for the same reason.
- Filter.Filter.LoadLine: does not model the memory limit, which ends loading early, nor the table of badfilter rules.
- Filter.Filter.Load: does not model the memory limit, nor a file that cannot be opened.
- Engine.Engine.Add: does not model lists that fail to load or reach the limit, nor the warning about equal numbers.
- User-written regular expressions and the expression library: the matcher is a parameter. Where rules made from wildcards are concerned, `LibraryFacts` states what is expected of it on the generated expressions, and that stripping groups leaves plain patterns alone.
- FilterMeaning.PatternRuleMeaning: patterns with brackets around an IP address are not covered, because the generated expression reads the brackets as a character class.
- HostsRuleIsNotCancelled: takes from the address parser only that an address has no `$` in it.
- Lines.ForEachLine: does not model an action that ends the scan early.
- Lines.ForEachFileLine: does not model an action that ends the scan early, nor read errors.
- Positions of lines beyond 32 bits are not modelled.
- An empty rule line reaches undefined behaviour in the comment test of the source; the model takes it as no comment.
- Approximate memory accounting and its limit, the number of a filter in its rules, and the warnings of the engine about lists it could not load.
- SortByPriority: an insertion sort stands for the library's sort; GetEffectiveRules is stated for every sorted permutation.
- Allocation failures, in CESU-8 conversion and elsewhere.
- Base64: characters are bytes; the signed indexes that plain `char` gives on some platforms are not modelled.
- Dns64.DiscoverPrefixes: the exchange with the upstream and its errors are left out; discovery takes an answer section.
- LruCache: the mutex around the list; the positions of nodes are those of a sequence, so the constant time of a splice is not captured.
- ResponseCache: packets are ids, flags, questions and records; the library that parses them is not modelled. The background refresh of expired responses is left out.
- GetCacheKey: requires a well-formed wire name, as the packet parser delivers it.
- TcpFraming.PayloadParser.Read: the timers and the work queue around it are left out.
- ShortcutOrder.OrderIsKeptForOnePieceOnly: for pieces beyond that size the second half is about all strings, not about names.
- WildcardRules.WildcardRuleMeaning: the same holds for its second half.
- FramedProtocol: a step is a stretch between two points where a lock is taken or given up; taking a message from the input and storing it are two steps; assignments to the closed flag outside the connection's lock count as one step. The retry after an unexpected end of stream, destruction and the texts of library errors are left out.
- FailAll: the order in which the table lists its entries is a parameter.
- Bootstrapper.Bootstrapper.Resolve: the order of the addresses, the server name and the elapsed time are not part of the modelled result.
- Bootstrapper.TryResolvers: each resolver's answer may depend on the time it is given and on nothing else; addresses are a set, so the order of the returned list is not captured, nor is the elapsed time.
- ResolveLongest: the sort is any sorted permutation; how the tables are read from the system is left out.
- DNS over HTTPS and QUIC, DNSCrypt, TLS, sockets and event loops, certificates, logging and the platform bindings: thin layers over libraries, or input and output.
