# libconf, serial chat and pattern matcher: a Dafny model

This project models the configuration library of the erd_server repository (libconf) and two small helpers next to it. Every property below is stated as a contract and proved.

- **libconf.** A configuration is a tree of named entries, one array per section, each array ended by a terminator. Each entry points at a row of a fixed type table whose getter prints the entry's value and whose setter parses text into it. The library has five parts:
  - a path resolver (`strtokcmp`, `entry_lookup`, `section_lookup`);
  - the get/set entry points (`conf_entry_get`, `conf_entry_set`);
  - the per-type codecs of `encdec.c`;
  - a line-oriented parser of the configuration text (`conf_parse`, `conf_load`);
  - a writer that prints the tree back (`write_section`, `conf_save`, `conf_dump`).
- **The older copy.** The repository holds a second copy of the library in `src/conf.c`. It is modelled where it differs from libconf: its type table, its tag enum and its IPv4 setter.
- **The serial chat** of `src/chat.c`. `serial_chat` sends a request and waits for one of up to 64 expected strings. `chat_xmt_log` and `chat_recv_log` print the traffic, with control characters escaped, in lines of bounded length.
- **The matcher** of `src/match.c`: `^`, `$`, `.` and `c*` over C strings.

Modules:

| file | module | models |
|---|---|---|
| `wrappers.dfy` | `Wrappers` | `Option` |
| `private.dfy` | `ConfPrivate` | `private.h`: `NULL_STRING`, `LTRIM`, `RTRIM`, `MIN`, `MAX`, plus the C-locale character classes, `strchr`, C strings and reading a C string by index |
| `cnum.dfy` | `CNum` | base-0 `strtol`/`strtoul`, the `%X` scan of `sscanf`, the `%i`/`%u`/`%0NX` output of `sprintf`, and narrowing conversions, on LP64 |
| `inet.dfy` | `Inet` | `inet_aton` (as glibc implements it) and `inet_ntoa` |
| `conf_types.dfy` | `ConfTypes` | the data model of `conf.h` and libconf's type table |
| `encdec.dfy` | `EncDec` | every getter and setter of `encdec.c` |
| `conf.dfy` | `Conf` | `strtokcmp`, the lookups, `conf_entry_set`, `conf_entry_get` |
| `parse.dfy` | `Parse` | `conf_parse` and `conf_load` |
| `write.dfy` | `Write` | `write_section`, `conf_save`, `conf_dump` |
| `reload.dfy` | `Reload` | the round trip of `conf_save` and `conf_load`: the writer's text, parsed back, restores the values |
| `variant.dfy` | `Variant` | the divergences of `src/conf.c` and `src/include/conf.h` |
| `match.dfy` | `Match` | `src/match.c` |
| `chat.dfy` | `Chat` | `src/chat.c` |

The shape of each part follows the source:

- **Configuration tree.** The tree is a value: entries hold a `Ref` that is NULL, storage holding a value, a child array, or a wild address. A string's storage also records the size of its block. A setter is a function from the old `Ref` to the new one, and a lookup answers with an index path.
- **Parser and writer.** Both are methods that walk their input as the C loops do. Each is proved to compute a specification function (`Line`/`Run`, `Walk`/`Written`). The properties are proved about those functions.
- **Setters in the parser.** The parser's functions and methods take the setter as a parameter: the entry type's `t_set` pointer, a function of the type, length, data pointer and value text. `Parse.ParseText` and `Parse.ConfParse` run with the type table's setters `EncDec.Set`. The properties of a run hold for any setter; the round trip `Reload.FlatSectionReloads` is proved for `EncDec.Set`.
- **Chat.** The chat state (`chat.debug`, `chat.timeout` and the static line buffer of `chat_recv_log`) is a class. The line buffers are arrays. Each loop is a method proved against a function that states what it prints or returns.
- **Round trip.** `Reload` joins the writer's and the parser's specification functions: the text `Written` gives for a section without subsections, parsed by `Run`, restores every value (`Reload.FlatSectionReloads`).
- **Matcher.** The matcher is a set of pure functions. They are proved sound and complete for an independent reading of the regexp as a sequence of elements.

Where the code differs from the library's documented design, the model follows the code:

- **conf_parse result.** `conf_parse` returns 0 at the end of the text, not the number of assignments it made (`src/libconf/conf.c:382-383`). `Parse.RunOutcome` proves that the result is always 0 or -1.
- **Empty values.** A value that is empty, with only blanks after `=`, is not empty for the setter. The value loop copies the newline and then the whole next line (`Parse.EmptyValueTakesNextLine`).
- **Last line overrun.** A value on a last line without a final newline runs into the NUL that `conf_load` appends, and the parser then reads beyond the buffer (`Parse.LastLineOverruns`).
- **Word matching in `bool_set`.** `bool_set` compares prefixes, so "onboard" reads as true and "nonsense" as false (`EncDec.BoolWordsArePrefixes`).
- **A key that names a section.** An assignment whose key resolves to a section entry goes to that entry's setter, `void_set`, which scans the value as a pointer into the entry's data pointer (`src/libconf/conf.c:354-380`, `src/libconf/encdec.c:64-68`). The line `name = 0` therefore replaces the section's child array with NULL, and any other number with a wild address; only a value with no hex digit keeps the array (`Parse.SectionKeyOverwrites`). A later `[name]` header still finds the section, but with a NULL array, so the lines under it are skipped (`Parse.OverwrittenSectionSkipped`).
- **String storage.** `string_set` mallocs a block only for a NULL entry, sized for the whole text, and otherwise copies into whatever the entry points at (`src/libconf/encdec.c:185-194`). A second, longer value overruns the first value's block (`EncDec.LongerValueOverruns`). With a positive length over an array of exactly that length, the NUL lands one byte past the array (`EncDec.StringCntOverruns`). The model reports both writes as clobbering memory.
- **Hex setters on failure.** When the `%X` scan finds no digit, `hex8_set` and `hex16_set` store an uninitialised local. `hex32_set` and `hex64_set` keep the old value (`EncDec.HexWithoutDigits`).
- **Type dispatch.** Dispatch goes by table position, not by the row's code field (`ConfTypes.CodeIsNotPosition`).
- **Older copy's enum.** The copy in `src/conf.c` inserted two rows into its table without renumbering its enum. Every tag from `CONF_INT64` on therefore selects the codecs of the tag two below it (`Variant.TagsSelectEarlierRows`).
- **`tohex`.** `tohex` prints the nibbles 10 to 15 as 'b' to 'g' (`Chat.ToHexSkipsA`). The loggers keep that behaviour, so the model prints what the code prints. The evidently intended digit is stated beside it (`Chat.HexDigit`, `Chat.HexDigitIsHex`).

## Model

| member | source | states |
|---|---|---|
| ConfPrivate.ToLower | src/libconf/encdec.c:219-230 | the case folding `strncasecmp` applies: upper-case letters map to their lower-case letter, every other character to itself |
| ConfPrivate.Ltrim | src/libconf/private.h:32-35 | what `LTRIM` leaves is no longer than the string and does not start with white space |
| ConfPrivate.LtrimSuffix | src/libconf/private.h:32-35 | what `LTRIM` leaves is a suffix of the string |
| ConfPrivate.LtrimSpan | src/libconf/private.h:32-35 | everything `LTRIM` passes over is white space |
| ConfPrivate.LtrimCursor | src/libconf/private.h:32-35 | the cursor loop of `LTRIM` stops at the start of the trimmed suffix |
| ConfPrivate.RtrimCut | src/libconf/private.h:36-39 | where `RTRIM` ends the string: after a non-space character, and never before index 1, since the first character is never tested |
| ConfPrivate.RtrimCutSpan | src/libconf/private.h:36-39 | only white space lies beyond the cut, so the cut follows the last non-space character |
| ConfPrivate.Rtrim | src/libconf/private.h:36-39 | `RTRIM` on a NUL-terminated array writes one NUL, at the cut, and changes nothing else |
| ConfPrivate.RtrimStop | src/libconf/private.h:36-39 | the backward walk of `RTRIM` stops just after the cut |
| ConfPrivate.RtrimCutSpace | src/libconf/private.h:36-39 | a trailing space past the first character does not move the cut |
| ConfPrivate.CStr | src/libconf/conf.c:95-124 | a C string is a prefix of the characters, and a NUL follows it unless it takes them all |
| ConfPrivate.CStrNoNul | src/libconf/conf.c:95-124 | a C string holds no NUL, so it is the prefix before the first NUL |
| ConfPrivate.Find | src/libconf/encdec.c:171-172 | `strchr` finds an occurrence, or reports none at the end |
| ConfPrivate.FindFirst | src/libconf/encdec.c:171-172 | no occurrence comes before the one `strchr` finds, so it is the first |
| ConfPrivate.Min | src/libconf/private.h:40 | `MIN` is one of its operands and no larger than either |
| ConfPrivate.Max | src/libconf/private.h:42 | `MAX` is one of its operands and no smaller than either |
| CNum.DigitValue | src/libconf/encdec.c:91 | a digit value is at most 36, where 36 means "no digit" |
| CNum.DigitRun | src/libconf/encdec.c:91 | the digit run ends at a character that is not a digit of the base, or at the end |
| CNum.DigitRunSpan | src/libconf/encdec.c:91 | every character of the run is a digit of the base, so the run is the longest digit prefix |
| CNum.MagnitudeLength | src/libconf/encdec.c:91 | the subject sequence is empty exactly when the text does not start with a decimal digit |
| CNum.Strtol | src/libconf/encdec.c:91 | base-0 `strtol` yields the signed magnitude when it fits a long, `LONG_MIN` below that range and `LONG_MAX` above it |
| CNum.UnsignedLong | src/libconf/encdec.c:117 | the unsigned long of a subject sequence: the magnitude when it fits and has no minus sign, always within 64 bits |
| CNum.Strtoul | src/libconf/encdec.c:117 | base-0 `strtoul` yields an unsigned long, equal to an unsigned magnitude that fits |
| CNum.ToUnsigned | src/libconf/encdec.c:318 | conversion to an unsigned width lands in range and keeps values already in range |
| CNum.ToSigned | src/libconf/encdec.c:292 | conversion to a signed width lands in range, keeps values already in range, and agrees with the unsigned conversion modulo 2^bits |
| CNum.DigitChar | src/libconf/encdec.c:330 | a printed hex digit is `0-9` or `A-F`, and it reads back as its value |
| CNum.Numeral | src/libconf/encdec.c:330 | `%0wX`/`%u` print at least w digits, and at least one |
| CNum.NumeralDigits | src/libconf/encdec.c:330 | every character printed is a digit of the base, '0' to '9' or 'A' to 'F' |
| CNum.DivMod | src/libconf/encdec.c:330 | the division facts of the printing loop for bases 10 and 16 |
| CNum.Decimal | src/libconf/encdec.c:77 | the text of `%i` is never empty |
| CNum.ScanHex | src/libconf/encdec.c:341 | a successful `%X` scan yields a value of the target width |
| CNum.DigitsValueSnoc | src/libconf/encdec.c:91 | appending a digit multiplies the value by the base and adds the digit |
| CNum.NumeralValue | src/libconf/encdec.c:330 | reading back the digits printf wrote gives the printed value |
| CNum.NumeralLeadingDigit | src/libconf/encdec.c:77 | `%u` of a non-zero value has no leading zero, so base 0 reads it as decimal |
| CNum.Pow | src/libconf/encdec.c:330 | powers of a positive base are positive |
| CNum.NumeralWidth | src/libconf/encdec.c:330 | `%0wX` of a value below 16^w has exactly w digits |
| CNum.HexWidthModulus | src/libconf/encdec.c:330 | 16 to the power of a width's nibble count is that width's modulus |
| CNum.DigitRunPrefix | src/libconf/encdec.c:91 | an all-digit string followed by a non-digit is read exactly to its end |
| CNum.DigitRunAll | src/libconf/encdec.c:91 | an all-digit string is read whole |
| CNum.MagnitudeOfNumeralThen | src/libconf/encdec.c:117 | a decimal numeral followed by a character that cannot continue it is read whole, value and length |
| CNum.MagnitudeOfNumeral | src/libconf/encdec.c:117 | `strtoul` reads an unsigned decimal numeral whole |
| CNum.SubjectOfNumeral | src/libconf/encdec.c:91 | a numeral with or without a minus sign gives that sign and magnitude |
| CNum.SubjectOfDecimal | src/libconf/encdec.c:77 | the text of `%i` reads back as its sign and magnitude |
| CNum.StrtolOfDecimal | src/libconf/encdec.c:77 | `strtol` reads back the `%i`/`%lli` text of any long |
| CNum.StrtoulOfDecimal | src/libconf/encdec.c:103 | `strtoul` reads back the `%u`/`%llu` text of any unsigned long |
| CNum.ZeroScansAsZero | src/libconf/encdec.c:66 | "0" and "0x0" scan as 0 |
| CNum.ScanHexOfHexText | src/libconf/encdec.c:341 | `%X` reads back the text of `0x%0wX` for any value of the width |
| CNum.HexItemOfDigits | src/libconf/encdec.c:341 | the input item after `0x` is the run of hex digits |
| CNum.HexPrefixed | src/libconf/encdec.c:330 | text that starts with `0x` has nothing to trim and the digits follow the prefix |
| CNum.HexTextShape | src/libconf/encdec.c:330 | a hex getter's text is `0x` followed by exactly one upper-case digit per nibble of the width |
| CNum.ModUnique | src/libconf/encdec.c:292 | a remainder is fixed by any decomposition with an in-range remainder |
| CNum.ModOfMultiple | src/libconf/encdec.c:318 | reducing modulo a multiple of m first does not change the remainder modulo m |
| CNum.NarrowFrom64 | src/libconf/encdec.c:318 | narrowing the unsigned long from `strtoul` equals converting straight to the width |
| CNum.StrtoulOfSignedDecimal | src/libconf/encdec.c:117 | `strtoul` reads the text of a negative long as that long modulo 2^64 |
| Inet.Bytes | src/libconf/encdec.c:700 | a value split into n bytes gives n bytes, each below 256 |
| Inet.Assemble | src/libconf/encdec.c:700 | an address assembled by `inet_aton` has four bytes, and the dotted parts come first |
| Inet.AtonFrom | src/libconf/encdec.c:700 | whatever `inet_aton` accepts is a four-byte address |
| Inet.InetAton | src/libconf/encdec.c:700 | a text `inet_aton` accepts yields a four-byte address |
| Inet.AtonLastPart | src/libconf/encdec.c:700 | the last decimal part completes the address |
| Inet.AtonInnerPart | src/libconf/encdec.c:700 | a decimal byte followed by a dot joins the parts read |
| Inet.AtonDot | src/libconf/encdec.c:700 | a part followed by a dot, while there is room for another part, joins the parts |
| Inet.NtoaParts | src/libconf/encdec.c:689 | `inet_ntoa` prints the four bytes in decimal, joined by dots |
| Inet.AssembleQuad | src/libconf/encdec.c:700 | three dotted bytes and a last part that is one byte make the address |
| Inet.AtonOfNtoa | src/libconf/encdec.c:689-700 | `inet_aton` reads back what `inet_ntoa` prints |
| ConfTypes.ConfType | src/libconf/include/conf.h:98 | `CONF_TYPE(t)` is the row at position t |
| ConfTypes.NameOf | src/libconf/include/conf.h:147 | only the terminator has a NULL name |
| ConfTypes.Define | src/libconf/include/conf.h:100-142 | `DEFINE_X` gives the row of its tag, the pointer and length 0 |
| ConfTypes.DefineStringCnt | src/libconf/include/conf.h:105-106 | `DEFINE_STRINGCNT` is a string entry with the given maximum length |
| ConfTypes.DefineSection | src/libconf/include/conf.h:101 | a section entry keeps its child array in the same pointer leaves use for storage |
| ConfTypes.Export | src/libconf/include/conf.h:150-190 | `EXPORT_X` names the entry after the variable and points at it |
| ConfTypes.ExportStringCnt | src/libconf/include/conf.h:191 | `EXPORT_STRINGCNT` names the entry after the variable, with the given length |
| ConfTypes.SectionArray | src/libconf/include/conf.h:146-148 | `BEGIN_SECTION ... END_SECTION` is the entries followed by one terminator |
| ConfTypes.TagsSelectTheirRows | src/libconf/conf.c:53-93 | the table has `CONF_MAX` rows; each tag up to `CONF_CHAR` selects the row named for it |
| ConfTypes.NarrowTagsSelectTheirRows | src/libconf/conf.c:63-67 | each 8-bit tag selects the row named for it |
| ConfTypes.ShortTagsSelectTheirRows | src/libconf/conf.c:69-73 | each 16-bit tag selects the row named for it |
| ConfTypes.WideTagsSelectTheirRows | src/libconf/conf.c:75-92 | each tag from `CONF_HEX32` on selects the row named for it |
| ConfTypes.CodeIsNotPosition | src/libconf/conf.c:53-93 | uint_8, uint_16 and uint_64 carry their signed neighbour's code, yet dispatch gives them their own unsigned codecs; every other code equals its position |
| ConfTypes.KindIndexLow | src/libconf/conf.c:54-65 | rows 0 to 10 each have a kind of their own, which leads back to the row (rows 0 and 1, void and section, share the codec pair void_get/void_set but not the kind) |
| ConfTypes.KindIndexMiddle | src/libconf/conf.c:66-79 | rows 11 to 20 each have a kind of their own, which leads back to the row |
| ConfTypes.KindIndexHigh | src/libconf/conf.c:81-92 | rows 21 to 30 each have a kind of their own, which leads back to the row |
| ConfTypes.RowsAreDistinct | src/libconf/conf.c:53-93 | distinct rows have distinct kinds (row identities), so the writer's row comparison (conf.c:442) is a kind comparison; the void and section rows share one codec pair and only that comparison tells them apart |
| EncDec.Allocate | src/libconf/encdec.c:85-87 | a setter leaves the entry with a pointer: the old one, or fresh uninitialised storage |
| EncDec.Write | src/libconf/encdec.c:89-93 | a fixed-size value stores into own or fresh storage; through a section's array or a scanned address it clobbers memory |
| EncDec.Keep | src/libconf/encdec.c:358-365 | a setter that stores nothing leaves allocated storage as it was |
| EncDec.VoidSet | src/libconf/encdec.c:64-68 | `void_set` returns 1; a scanned 0 makes the pointer NULL and a failed scan keeps it |
| EncDec.SignedSet | src/libconf/encdec.c:81-94 | the signed setters store a value of their width and return 1 |
| EncDec.UnsignedSet | src/libconf/encdec.c:107-120 | the unsigned setters store a value of their width and return 1 |
| EncDec.HexSet | src/libconf/encdec.c:334-345 | the hex setters return 1, and they leave an entry that had no storage with storage of its own |
| EncDec.StringKept | src/libconf/encdec.c:189-190 | the characters kept: a prefix of the text's content, all of it for length 0 and `MIN(len, var->len)` of it otherwise |
| EncDec.StringSet | src/libconf/encdec.c:157-197 | `string_set` stores the kept characters with their NUL: a NULL entry gets a block one byte longer than the whole content and always stores; a string block stores exactly when the kept characters and the NUL fit, keeping its size; other pointers clobber |
| EncDec.BoolSet | src/libconf/encdec.c:208-236 | `bool_set` stores the value of a recognised word and returns 1; otherwise it returns 0 and stores nothing |
| EncDec.CharSet | src/libconf/encdec.c:251-266 | `char_set` stores the first character after white space; text that is all white space stores nothing |
| EncDec.Ipv4Set | src/libconf/encdec.c:693-703 | `ipv4addr_set` stores the address `inet_aton` reads, keeps the old one when it refuses, and returns 1 |
| EncDec.Set | src/libconf/conf.c:53-93 | every setter but void's leaves storage; the stubs store nothing and return 0 |
| EncDec.Unreadable | src/libconf/encdec.c:77 | a getter reading uninitialised or foreign memory prints an undetermined text |
| EncDec.Get | src/libconf/conf.c:53-93 | a getter prints a value only from existing storage, and never for a stub type |
| EncDec.SetOutcome | src/libconf/encdec.c:64-783 | into NULL or storage, every setter stores except `string_set` into a block too small for its text; every setter but void's leaves storage; the return is 1 except for the stubs and for a `bool_set` text that starts with none of its words |
| EncDec.HexSetStores | src/libconf/encdec.c:334-345 | a hex setter always succeeds into storage of its own |
| EncDec.AbsentStorage | src/libconf/encdec.c:53-783 | without storage a getter writes "NULL" and returns 0, except `bool_get` (NULL dereference) and `oct32_get`/`bin64_get`, which write nothing |
| EncDec.StubsHoldNothing | src/libconf/encdec.c:347-385 | the unimplemented types never store and never print a value |
| EncDec.HexWithoutDigits | src/libconf/encdec.c:334-345 | with no hex digit, `hex8_set`/`hex16_set` store garbage while `hex32_set`/`hex64_set` keep the old value |
| EncDec.SignedRoundTrip | src/libconf/encdec.c:70-94 | the signed setters read back the text of their getter |
| EncDec.UnsignedRoundTrip | src/libconf/encdec.c:96-120 | the unsigned setters read back the text of their getter |
| EncDec.HexSetOfHexText | src/libconf/encdec.c:334-345 | the hex setters read back `0x%0wX` text |
| EncDec.HexRoundTrip | src/libconf/encdec.c:323-345 | the hex getter prints `0x` and two digits per byte, and the setter reads that text back |
| EncDec.BoolSetOfWord | src/libconf/encdec.c:208-236 | a recognised word without leading space is stored as its value |
| EncDec.BoolSetTrue | src/libconf/encdec.c:199-236 | `bool_get` prints "True" for true and `bool_set` reads it back |
| EncDec.BoolSetFalse | src/libconf/encdec.c:199-236 | `bool_get` prints "False" for false and `bool_set` reads it back |
| EncDec.BoolWordsArePrefixes | src/libconf/encdec.c:216-225 | the true words match as case-insensitive prefixes ("onboard" is true) |
| EncDec.FalseWordsArePrefixes | src/libconf/encdec.c:227-235 | the false words match as prefixes ("nonsense" is false); "y", "2" and "" are refused |
| EncDec.CharRoundTrip | src/libconf/encdec.c:238-266 | `char_set` reads back what `char_get` prints for a character other than NUL and white space |
| EncDec.StringTextQuoted | src/libconf/encdec.c:168-174 | a quoted text yields the characters before the first closing quote |
| EncDec.StringRoundTrip | src/libconf/encdec.c:142-197 | `string_set` reads back what `string_get` prints for a string without double quotes that fits the length, into a fresh block of one byte more or a string block with room for it |
| EncDec.StringCutAtQuote | src/libconf/encdec.c:142-197 | a string holding a double quote reads back cut at that quote, into a block with room for it |
| EncDec.StringBounded | src/libconf/encdec.c:185-190 | with a positive length, at most that many characters are kept, and they are a prefix of the text's content; a NULL entry always stores |
| EncDec.StringCntOverruns | src/libconf/encdec.c:189-194 | with a positive length over an array of exactly that many characters, a text as long as the array writes its NUL past it; one byte more is enough |
| EncDec.LongerValueOverruns | src/libconf/encdec.c:185-194 | an unbounded string entry set a second time with a longer text writes past the block malloc'd for the first; a shorter text fits |
| EncDec.Ipv4RoundTrip | src/libconf/encdec.c:681-703 | `ipv4addr_set` reads back what `ipv4addr_get` prints |
| EncDec.SignedNarrowing | src/libconf/encdec.c:282-295 | the signed setters store the long `strtol` reads, converted to their width |
| EncDec.UnsignedNarrowing | src/libconf/encdec.c:308-321 | the unsigned setters store the negated magnitude `strtoul` makes, converted to their width |
| Conf.TokCmpFrom | src/libconf/conf.c:95-124 | a prefix match leaves a rest within the haystack |
| Conf.StrTokCmp | src/libconf/conf.c:95-124 | a NULL operand compares equal |
| Conf.TokCmpFromMeaning | src/libconf/conf.c:104-123 | the compare loop, once i characters agree, gives the answer of `TokCmpMeaning` |
| Conf.StrTokCmpMeaning | src/libconf/conf.c:95-124 | 0 exactly for equal strings; 1 exactly when the needle and a delimiter start the haystack and there is a saveptr, with the rest just past the delimiter; -1 otherwise |
| Conf.NoNulCStr | src/libconf/conf.c:95-124 | a sequence without NUL is its own C string |
| Conf.Within | src/libconf/conf.c:129-163 | a result found inside entry i is reported under i, and failure is kept |
| Conf.Lookup | src/libconf/conf.c:129-163 | a found path leads to an entry |
| Conf.LookupFrom | src/libconf/conf.c:145-159 | a match from index i lies at or after i, in the array |
| Conf.EntryLookup | src/libconf/conf.c:129-163 | a NULL or empty name, or a NULL section, is not found |
| Conf.EntryAt | src/libconf/conf.c:129-163 | a valid path leads to an entry, not to the terminator |
| Conf.Replace | src/libconf/conf.c:182-198 | replacing an entry's pointer keeps the shape of the array |
| Conf.LookupSound | src/libconf/conf.c:129-163 | a found entry has a non-empty name, and the name looked up is the names along its path joined by slashes |
| Conf.LookupFromSound | src/libconf/conf.c:145-159 | the same for the walk from any index |
| Conf.PrefixStep | src/libconf/conf.c:147-156 | a prefix match continues in the section with the rest after the slash |
| Conf.FirstMatchWins | src/libconf/conf.c:145-159 | every sibling before the found one compares different: the first match wins |
| Conf.FirstMatchFrom | src/libconf/conf.c:145-159 | the same from any starting index |
| Conf.LookupComplete | src/libconf/conf.c:145-159 | an exact name is found when all earlier siblings differ; a prefix match on a non-section fails without trying later siblings |
| Conf.LookupSkips | src/libconf/conf.c:145-159 | siblings that compare different are passed over |
| Conf.TrailingSlash | src/libconf/conf.c:129-163 | a name ending in a slash is found only as an entry whose own name ends in a slash |
| Conf.PathNameEndsWithLast | src/libconf/conf.c:129-163 | a path's name ends with its last entry's name |
| Conf.SectionLookup | src/libconf/conf.c:165-180 | `section_lookup` finds exactly the entries that `entry_lookup` finds and that are sections |
| Conf.ReplaceAt | src/libconf/conf.c:182-198 | a replacement puts the new pointer at the path and keeps name, type and length |
| Conf.ReplaceKeepsLookup | src/libconf/conf.c:182-198 | setting a value (not a section) changes no lookup |
| Conf.ReplaceKeepsLookupFrom | src/libconf/conf.c:145-159 | the same for the walk from any index |
| Conf.ReplaceKeepsFound | src/libconf/conf.c:145-159 | replacing the pointer of the entry a name resolves to, with anything, leaves the name resolving to that entry |
| Conf.ReplaceKeepsFoundFrom | src/libconf/conf.c:145-159 | the same for the walk from any index |
| Conf.EntrySet | src/libconf/conf.c:182-198 | `conf_entry_set` returns -1 for a name that does not resolve; for a resolved entry it hands the text ("NULL" for a NULL value) to the entry's setter, stores the setter's pointer at the entry's path and nowhere else, and returns 0 exactly when the setter returns non-zero |
| Conf.SetThenGet | src/libconf/conf.c:182-219 | after a set whose setter stores c and succeeds, and whose getter prints the same text back, the set returns 0, changes only that entry's pointer, and a get of the same name answers 0 with that text |
| EncDec.Canonical | src/libconf/encdec.c:70-345 | the text the integer, hex and bool getters print for a value in range is never empty |
| EncDec.CanonicalCharacters | src/libconf/encdec.c:70-345 | that text holds only letters, digits and '-' |
| EncDec.DecimalCharacters | src/libconf/encdec.c:70-90 | the decimal text of a number holds only digits and '-' |
| EncDec.CanonicalRoundTrip | src/libconf/encdec.c:70-345 | an integer, hex or bool setter given the getter's text stores the same value and returns 1, into NULL or storage |
| Conf.SetThenGetCanonical | src/libconf/conf.c:182-219 | `conf_entry_set` of an integer, hex or bool entry with the canonical text of a value returns 0, and `conf_entry_get` of the same name then prints that text |
| Conf.EntryGet | src/libconf/conf.c:200-219 | `conf_entry_get` returns -1 for a NULL buffer or an unresolved name; for a resolved entry it answers 0 with the getter's text, or 0 with "NULL" when the getter returns 0; the answer is undetermined only where the getter's own text is |
| Conf.GetFound | src/libconf/conf.c:200-219 | a resolved entry answers 0 with the getter's text, or with "NULL" when the getter fails |
| Parse.NotLast | src/libconf/conf.c:414 | only the appended NUL ends the buffer |
| Parse.SkipBlanks | src/libconf/conf.c:242 | the blank-skipping loop stops, inside the buffer, on a character that is not a space or tab |
| Parse.SkipBlanksSpan | src/libconf/conf.c:242 | every character it passes over is a space or tab, so it stops on the first other one |
| Parse.LineEnd | src/libconf/conf.c:254-258 | a discarded line ends, inside the buffer, at a newline or NUL |
| Parse.LineEndSpan | src/libconf/conf.c:254-258 | no newline or NUL comes before that end, so it is the first |
| Parse.NameEnd | src/libconf/conf.c:277-280 | a name ends, inside the buffer, at a character not allowed in a section name (header) or a key |
| Parse.NameEndSpan | src/libconf/conf.c:277-280 | every character before that end is allowed, so the name ends at the first one that is not |
| Parse.ReplaceDeclares | src/libconf/conf.c:377 | storing into an entry keeps every declaration of the tree |
| Parse.SameDeclarationsRefl | src/libconf/conf.c:377 | keeping declarations is reflexive |
| Parse.SameDeclarationsTrans | src/libconf/conf.c:377 | keeping declarations is transitive |
| Parse.Discard | src/libconf/conf.c:252-260 | a discarded line continues after its newline, or ends the run with 0 at the NUL |
| Parse.Enter | src/libconf/conf.c:309-315 | entering a header moves the cursor to the next line and keeps the tree; the current section becomes one only when `section_lookup` finds it with a non-NULL array, and the run stops only for a name that strays out of the tree |
| Parse.HeaderEnd | src/libconf/conf.c:291-315 | the rest of a header line either ends the run with 0 or -1 and the tree unchanged, or continues just after a newline with the tree unchanged |
| Parse.Header | src/libconf/conf.c:262-316 | a header line either ends the run with 0 or -1 and the tree unchanged, or continues just after a newline with the tree unchanged |
| Parse.Value | src/libconf/conf.c:365-374 | the value starts with the character after the blanks, whatever it is, and is empty when that character is the NUL |
| Parse.ValueRestSlice | src/libconf/conf.c:370-373 | after its first character the value loop copies the line up to its newline or NUL |
| Parse.ValueSlice | src/libconf/conf.c:365-374 | the value is everything to the end of the line, comment and trailing blanks included, cut by the setter's C-string reading only at a NUL first character |
| Parse.ValueSpan | src/libconf/conf.c:365-374 | past its first character the value holds no newline and no NUL |
| Parse.Assign | src/libconf/conf.c:365-380 | an assignment stores through the entry's setter, whichever setter the type table gives, and changes only the pointer of that entry, which for a section entry is its child array; names, types and lengths stay as declared |
| Parse.Assignment | src/libconf/conf.c:332-363 | an assignment line moves the cursor forward into a valid section with every declaration kept, or ends the run with 0 or -1 and the tree unchanged, or strays |
| Parse.Keyed | src/libconf/conf.c:354-366 | after '=', the step moves the cursor forward into a valid section with every declaration kept, or ends the run with 0 or -1 and the tree unchanged, or strays |
| Parse.Line | src/libconf/conf.c:235-381 | each pass moves the cursor forward, stays in a valid section and changes only data |
| Parse.Content | src/libconf/conf.c:252-363 | a non-empty line moves the cursor forward into a valid section with every declaration kept, or ends the run with 0 or -1 and the tree unchanged, or strays |
| Parse.LineIsHeader | src/libconf/conf.c:262-264 | a line whose first character after the blanks is '[' is read as a header in any section, skip mode included |
| Parse.HeaderIsHeaderEnd | src/libconf/conf.c:266-292 | a header name starting with a letter and closed by ']' leads to the check of the rest of the line, with that name |
| Parse.HeaderEndEnters | src/libconf/conf.c:291-315 | blanks and an optional comment up to a newline after the ']' lead to `section_lookup` of the name, continuing after the newline |
| Parse.HeaderEnters | src/libconf/conf.c:266-315 | a well-formed header after its '[' reaches `section_lookup` of its name with the line after it |
| Parse.HeaderRejectsName | src/libconf/conf.c:266-289 | after '[', a name that does not start with a letter or is not closed by ']' ends the run with -1 |
| Parse.EnterCases | src/libconf/conf.c:309-315 | entering a header: skip mode when `section_lookup` finds nothing or a NULL array, that section otherwise |
| Parse.HeaderEndRejects | src/libconf/conf.c:291-307 | after the ']', text other than blanks, a comment or a newline is an error |
| Parse.HeaderLine | src/libconf/conf.c:262-315 | a well-formed header line continues on the next line with the tree unchanged: in skip mode when the name is no section or its array is NULL, otherwise in that section |
| Parse.HeaderWithoutLetter | src/libconf/conf.c:266-273 | a header whose name does not start with a letter ends the run with -1, in skip mode too |
| Parse.HeaderWithoutBracket | src/libconf/conf.c:277-289 | a header name not followed by blanks and ']' ends the run with -1, in skip mode too |
| Parse.HeaderTrailingText | src/libconf/conf.c:291-307 | anything after the ']' other than blanks, a comment or a newline ends the run with -1, in skip mode too |
| Parse.KeyWithoutEquals | src/libconf/conf.c:338-352 | in a section, a key not followed by blanks and '=' ends the run with -1 |
| Parse.SkipModeDiscards | src/libconf/conf.c:318-326 | in skip mode every line other than a header, an empty line or the end is discarded, assignments included |
| Parse.UnknownKeyDiscards | src/libconf/conf.c:354-363 | in a section, a key that names no entry discards the rest of the line after the '=' |
| Parse.RunOutcome | src/libconf/conf.c:221-384 | a run returns 0 or -1, never a count, and leaves a tree with the root's declarations |
| Parse.ParseOutcome | src/libconf/conf.c:221-384 | `conf_parse` returns 0 or -1 with the root's declarations kept |
| Parse.HeaderFromRoot | src/libconf/conf.c:262-316 | a header resolves from the root whatever section the parser is in |
| Parse.SkipModeHidesErrors | src/libconf/conf.c:318-336 | a malformed line ends the run with -1 in a section, but is passed over in skip mode |
| Parse.SectionKeyOverwrites | src/libconf/conf.c:354-380 | a key resolving to a section entry hands the value to `void_set` (`src/libconf/encdec.c:64-68`): the run goes on after the line with only that entry's pointer replaced, by NULL for a value scanning as 0, by a wild address for another number, and kept only when the scan fails |
| Parse.OverwrittenSectionSkipped | src/libconf/conf.c:309-315 | after a root-level line that sets a section's name to 0, a header naming that section enters skip mode |
| Parse.EmptyValueTakesNextLine | src/libconf/conf.c:366-373 | an empty value hands the setter a newline and the whole next line |
| Parse.LastLineOverruns | src/libconf/conf.c:366-373 | a value on a last line without a newline makes the parser read past the appended NUL |
| Parse.PathConcat | src/libconf/conf.c:354 | a key found below the current section is the entry at the joined path from the root |
| Parse.ReplaceBelow | src/libconf/conf.c:377 | storing below the current section keeps that section valid |
| Parse.SkipBlanksAt | src/libconf/conf.c:242 | the loop stops where `SkipBlanks` says |
| Parse.LineEndAt | src/libconf/conf.c:254-258 | the loop stops where `LineEnd` says |
| Parse.NameEndAt | src/libconf/conf.c:340-343 | the token loop stops where `NameEnd` says |
| Parse.DiscardLine | src/libconf/conf.c:252-260 | computes `Discard` |
| Parse.ParseHeaderEnd | src/libconf/conf.c:291-315 | computes `HeaderEnd` |
| Parse.ParseHeader | src/libconf/conf.c:262-316 | computes `Header` |
| Parse.ParseValue | src/libconf/conf.c:365-380 | computes `Assign` |
| Parse.ParseAssignment | src/libconf/conf.c:332-352 | computes `Assignment` |
| Parse.ParseKeyed | src/libconf/conf.c:354-366 | computes `Keyed` |
| Parse.ParseLine | src/libconf/conf.c:238-250 | computes `Line` |
| Parse.ParseContent | src/libconf/conf.c:252-336 | computes `Content`, in the C code's branch order |
| Parse.ConfParse | src/libconf/conf.c:221-384 | the loop computes `ParseText` |
| Parse.ConfLoad | src/libconf/conf.c:386-417 | returns -1 for a file that cannot be opened or is empty; otherwise parses the content with a NUL appended |
| Write.FieldLine | src/libconf/conf.c:445-451 | a field's line is keyed by the entry's name |
| Write.SectionPath | src/libconf/conf.c:459-462 | a subsection's path is branch/name, or the name at the top |
| Write.Walk | src/libconf/conf.c:439-454 | the first pass writes only assignments and queues only sections |
| Write.Assignments | src/libconf/conf.c:451 | the count of assignment lines never exceeds the number of lines |
| Write.AssignmentsAppend | src/libconf/conf.c:464 | counts add up over concatenation |
| Write.AllAssignmentsCount | src/libconf/conf.c:451 | in a list of assignments, every line counts |
| Write.CountIsAssignments | src/libconf/conf.c:423-468 | the count `write_section` returns is the number of `name = value` lines it wrote |
| Write.NestedCount | src/libconf/conf.c:456-465 | the second pass's count is its number of assignment lines |
| Write.FieldsFirst | src/libconf/conf.c:423-468 | a section's fields come before anything of its subsections, and every header follows a blank line |
| Write.NullSectionWritesNothing | src/libconf/conf.c:434-435 | a NULL section writes nothing and returns 0 |
| Write.PrefixPrefix | src/libconf/conf.c:439-454 | collected lines and queue entries concatenate |
| Write.ThenThen | src/libconf/conf.c:456-465 | written lines and counts concatenate |
| Write.PrefixDone | src/libconf/conf.c:440 | the terminator ends the first pass with what was collected |
| Write.WalkStep | src/libconf/conf.c:442-453 | one entry: a field's line or a queued section, then the rest |
| Write.Advance | src/libconf/conf.c:442-453 | the first pass moved on by one entry |
| Write.FirstPassStep | src/libconf/conf.c:442-453 | one loop turn keeps the first pass's outcome, or crashes exactly where it would |
| Write.FirstPass | src/libconf/conf.c:439-454 | the first loop computes `Walk` |
| Write.NestedStep | src/libconf/conf.c:456-465 | one queued section: blank line, header, its contents, then the rest |
| Write.WriteSection | src/libconf/conf.c:423-468 | `write_section` computes `Written` |
| Write.WriteQueued | src/libconf/conf.c:457-464 | one turn of the second loop keeps the outcome |
| Write.ConfSave | src/libconf/conf.c:470-485 | -1 when the file cannot be opened; otherwise the text `Written` gives and the count of its assignment lines |
| Write.ConfDump | src/libconf/conf.c:487-490 | the same text on standard output, and the count of its assignment lines |
| Reload.KeyIsCString | src/libconf/conf.c:446 | a key holds no NUL, so the name the writer prints is the whole key |
| Reload.KeysCompare | src/libconf/conf.c:354 | `strtokcmp` of two keys is a match exactly when they are equal, and never a prefix match |
| Reload.SkipBlanksTo | src/libconf/conf.c:242 | the blank-skipping loop stops at the first character after a run of blanks |
| Reload.NameEndTo | src/libconf/conf.c:340-343 | the key loop stops at the first character after a run of key characters |
| Reload.LineEndTo | src/libconf/conf.c:370-373 | the value loop stops at the first newline or NUL |
| Reload.ValueOfLine | src/libconf/conf.c:369-374 | a value followed by a newline is read whole, up to the newline |
| Reload.WrittenLineAt | src/libconf/conf.c:446 | where the key, the " = ", the value and the newline of a written line lie |
| Reload.WrittenLineScans | src/libconf/conf.c:242-374 | the parser's scans over a written line find the key, the '=' and exactly the written value |
| Reload.LineIsAssignment | src/libconf/conf.c:242-262 | a line starting with a letter is an assignment |
| Reload.AssignmentIsKeyed | src/libconf/conf.c:332-354 | the key up to the blank before '=' is looked up in the current section |
| Reload.KeyedIsAssign | src/libconf/conf.c:365-366 | a resolved key's value starts after the blanks that follow '=' |
| Reload.AssignStores | src/libconf/conf.c:369-380 | the value goes to the entry's setter, whose pointer is stored, and the loop goes on after the newline |
| Reload.KeyedStores | src/libconf/conf.c:365-380 | the same from the '=' on |
| Reload.LineIsKeyed | src/libconf/conf.c:242-354 | a root-section line "key =" whose key resolves to an entry goes on to the value after the '=' |
| Reload.LineStores | src/libconf/conf.c:242-380 | one assignment line of the root section stores its value and moves on past its newline |
| Reload.LineReloads | src/libconf/conf.c:242-380 | a written line "key = t" for a key that resolves to entry i stores the setter's pointer there and moves on past the line |
| Reload.WalkFlat | src/libconf/conf.c:439-454 | the first pass over a section without subsections prints one line per field, in order, with the getter's text, and queues nothing |
| Reload.WrittenFlat | src/libconf/conf.c:423-468 | `write_section` on such a section prints those lines only and returns their number |
| Reload.ReloadsPrinted | src/libconf/conf.c:445-446 | fields that reload have getters that print |
| Reload.FieldFound | src/libconf/conf.c:354 | halfway through, each field's key still finds that field |
| Reload.FieldRestored | src/libconf/conf.c:377 | storing a field's own pointer back moves the tree on by one field |
| Reload.RunAtEnd | src/libconf/conf.c:242-245 | at the closing NUL the loop stops and returns 0 |
| Reload.RunStep | src/libconf/conf.c:235-381 | a line that moves the loop on leaves the rest of the run to the next line |
| Reload.FieldLineFirst | src/libconf/conf.c:446 | the text left for fields k on starts with field k's line, followed by the lines of the later fields |
| Reload.FieldLineStores | src/libconf/conf.c:332-380 | field k's line stores field k's value into the tree |
| Reload.RunNext | src/libconf/conf.c:235-381 | one turn of the loop over the written text restores one field |
| Reload.RunReloads | src/libconf/conf.c:235-383 | the loop from field k's line on restores every later field and returns 0 |
| Reload.FlatSectionReloads | src/libconf/conf.c:221-468 | `write_section` on a section without subsections writes one line per field and returns their number, and `conf_parse` of that text into a tree with the same declarations restores every value and returns 0 |
| Reload.CanonicalOneLine | src/libconf/encdec.c:70-345 | the integer, hex and bool getters' text stays on one line |
| Reload.CanonicalReloads | src/libconf/encdec.c:70-345 | integer, hex and bool fields reload their value |
| Reload.QuotedOneLine | src/libconf/encdec.c:142-155 | a quoted text without newline or NUL stays on one line |
| Reload.StringReloads | src/libconf/encdec.c:142-197 | a string field reloads when its text holds no quote, newline or NUL and fits its length, into its own block or a fresh block of the same size |
| Variant.VariantType | src/include/conf.h:96 | `CONF_TYPE(t)` of the older copy is a row of its table |
| Variant.TableShifted | src/conf.c:811-851 | the older table is libconf's with two rows inserted after octal_16: the first 18 agree and every later row sits two places down |
| Variant.EnumKeepsValues | src/include/conf.h:54-94 | from `CONF_INT64` on, the older enum keeps libconf's values |
| Variant.TagsSelectEarlierRows | src/include/conf.h:54-94 | each tag from `CONF_INT64` to `CONF_RATIO` selects the codecs libconf gives the tag two below, never its own |
| Variant.TableSizes | src/conf.c:811-851 | libconf's table has 31 rows, one per enum value; the older one has 33 |
| Variant.VariantIpv4Set | src/conf.c:717-729 | the older `ipv4addr_set` only allocates and returns 1 |
| Variant.VariantIpv4IgnoresText | src/conf.c:717-729 | the older copy keeps the old address, and reports success, whatever the text, where libconf stores the new one |
| Variant.Ipv4TagInVariant | src/conf.c:811-851 | in the older copy `CONF_IPV4ADDR` selects binary_64, which refuses every text, and the ipv4 row sits at `CONF_RGBI` |
| ConfPrivate.CharAt | src/match.c:22-31 | reading a C string before its end gives its character; at or past its end, the NUL |
| Match.Elements | src/match.c:20-35 | a regexp has at most as many elements as characters |
| Match.StarElements | src/match.c:25-26 | a regexp starting `c*` matches exactly when some run of c is followed by a match of the rest |
| Match.OneElements | src/match.c:31-32 | a regexp starting with a single character or '.' matches exactly when that character is accepted and the rest matches after it |
| Match.MatchHereMeaning | src/match.c:20-35 | `matchhere` succeeds exactly when the regexp matches at the start of the text (soundness and completeness) |
| Match.RunStep | src/match.c:14 | a run of c is an accepted character followed by a shorter run |
| Match.SplitGrows | src/match.c:10-14 | a split of the rest of the text extends by one accepted character |
| Match.SplitShrinks | src/match.c:10-14 | a split after at least one character gives a split of the rest |
| Match.StarMeaning | src/match.c:8-17 | `matchstar` succeeds exactly when some run of c, possibly empty, is followed by a match of the rest |
| Match.MatchFromMeaning | src/match.c:43-49 | the search over positions succeeds exactly when a match starts at some position, the end of the text included |
| Match.MatchesMeaning | src/match.c:38-50 | `match` with '^' matches exactly at the start; otherwise it matches exactly when some position does |
| Match.EmptyMatchesAnything | src/match.c:22-23 | an empty regexp matches any text |
| Match.DollarOnlyAtEnd | src/match.c:28-29 | a lone '$' matches only the end of the text, and so `match` always finds it |
| Match.OneNeedsACharacter | src/match.c:31-34 | a plain character or '.' needs a character of the text |
| Match.StarAloneMatches | src/match.c:25-26 | `c*` alone matches any text, the empty one included |
| Match.Match | src/match.c:38-50 | the loop computes `match`; without '^' it succeeds exactly when some position matches |
| Chat.At | src/chat.c:38 | reading a C string at or past its end gives the NUL |
| Chat.ToHexSkipsA | src/chat.c:18-21 | `tohex` as written maps 0 to 9 to '0' to '9' but 10 to 'b' and 15 to 'g', so 'a' is never printed |
| Chat.HexDigitIsHex | src/chat.c:18-21 | the evidently intended digit of a nibble is its character in "0123456789abcdef" |
| Chat.ToHexInjective | src/chat.c:18-21 | distinct nibbles get distinct digits, as written and as intended |
| Chat.ToHexDigits | src/chat.c:18-21 | the printed digit determines the nibble |
| Chat.Escape | src/chat.c:74-90 | a character prints as nothing exactly when it is NUL, otherwise as at most 3 characters, an escape starting with a backslash |
| Chat.NibblesDetermine | src/chat.c:85-88 | the low and high nibbles determine a signed char below ' ' |
| Chat.EscapeInjective | src/chat.c:74-90 | two different characters never print alike, so the log is unambiguous |
| Chat.EscapeAllAppend | src/chat.c:36-57 | escaping a concatenation is concatenating the escapes |
| Chat.Recv | src/chat.c:66-100 | one call keeps the buffered count below 72 when it was below 72 |
| Chat.RecvKeepsText | src/chat.c:66-100 | one call adds exactly the character's escape to what is printed or buffered |
| Chat.RecvAllKeepsText | src/chat.c:66-100 | over any sequence of calls, received text is neither lost, duplicated nor reordered |
| Chat.RecvAllShort | src/chat.c:92-98 | the buffer holds fewer than 72 characters between calls and no printed line exceeds 74, within the 144-character buffer |
| Chat.LogAfterStep | src/chat.c:71-72 | logging a sequence is one call then the rest; with logging off nothing changes |
| Chat.NulFlushes | src/chat.c:74-98 | a NUL empties the buffer, printing it as a line when it is not empty |
| Chat.Chunk | src/chat.c:37-57 | one line reads at least one character, stops within the string and its NUL, and stays within 74 characters |
| Chat.XmtFrom | src/chat.c:36-62 | `chat_xmt_log` prints at least one line |
| Chat.SentLinesStep | src/chat.c:36-62 | the lines are the first chunk, then those after it unless it ended on NUL |
| Chat.SentLines | src/chat.c:60 | one `-->` line per chunk |
| Chat.ChunkText | src/chat.c:37-57 | a line holds the escaped text of exactly the characters it read |
| Chat.XmtLinesShort | src/chat.c:37-58 | every line `chat_xmt_log` prints has at most 74 characters |
| Chat.XmtKeepsText | src/chat.c:25-64 | the printed lines together hold the escaped text of the whole string, in order |
| Chat.ChunkEnd | src/chat.c:38-50 | a line that ends on NUL read the NUL last, with no newline before it |
| Chat.NewlineThenEmptyLine | src/chat.c:47-62 | a string ending in a newline makes the last printed line empty |
| Chat.CollectFrom | src/chat.c:117-122 | the expected strings are the arguments before the first NULL, at most 64 of them |
| Chat.BytesIn | src/chat.c:149-150 | one byte per receive |
| Chat.FirstDone | src/chat.c:141-147 | the lowest pattern matched up to its NUL; no lower one is |
| Chat.FailedSendReturned | src/chat.c:129-131 | a negative send result is returned before anything is received |
| Chat.WaitRange | src/chat.c:138-173 | the wait returns a pattern's number from 1, or 0, or a negative receive result |
| Chat.ChatRange | src/chat.c:104-174 | after a successful send, `serial_chat` returns a pattern number up to the count of expected strings, or what a receive returned (0 or less) |
| Chat.ProgressIsSuffix | src/chat.c:162-167 | a matching position k means the last k bytes spell the start of the pattern |
| Chat.ProgressStaysIn | src/chat.c:162-167 | a position never runs past the end of a pattern without NUL |
| Chat.WaitFound | src/chat.c:138-168 | a returned i+1 means the bytes received end with pattern i and no lower pattern was complete |
| Chat.ChatFound | src/chat.c:104-174 | `serial_chat` returning i+1 means the bytes received end with the i-th expected string |
| Chat.EmptyPatternAtOnce | src/chat.c:141-147 | an empty expected string is found before anything is received |
| Chat.RestartMissesOverlap | src/chat.c:162-167 | a mismatch resets without testing the byte again, so "ab" is missed in "aab" |
| Chat.Chat.constructor | src/chat.c:10-16 | logging on, 200 ms timeout, nothing buffered |
| Chat.Chat.SetTimeout | src/chat.c:176-179 | sets the timeout and nothing else |
| Chat.Chat.SetDebug | src/chat.c:181-184 | sets the logging switch and nothing else |
| Chat.Chat.RecvLog | src/chat.c:66-100 | the log moves on by `Recv` when logging is on, and is unchanged otherwise |
| Chat.Chat.XmtLog | src/chat.c:25-64 | appends exactly the lines `XmtLines` gives when logging is on; the receive buffer is untouched |
| Chat.Chat.LogChunk | src/chat.c:37-61 | prints one line and moves the position past what it read |
| Chat.Chat.SerialChat | src/chat.c:104-174 | returns `ChatReply`; the log gets the request's lines, then every received byte and the closing NUL |
| Chat.Chat.AwaitPatterns | src/chat.c:133-173 | the wait loop returns `Wait` and logs exactly the bytes it read, then the NUL |
| Chat.Chat.LogReceived | src/chat.c:152 | logs one received byte |
| Chat.Chat.FlushLog | src/chat.c:170-171 | the final NUL completes the log |
| Chat.FillLine | src/chat.c:37-58 | the inner loop fills the buffer with exactly `Chunk`'s line |
| Chat.PutEscaped | src/chat.c:41-56 | writes exactly the character's escape and moves the index past it |
| Chat.CollectArgs | src/chat.c:117-122 | the argument loop collects exactly `Collected` |
| Chat.ResetPositions | src/chat.c:134-135 | every position becomes 0 |
| Chat.FirstComplete | src/chat.c:141-147 | the check loop finds `FirstDone` |
| Chat.Feed | src/chat.c:162-167 | each position moves on by the received byte as `Progress` says |

## Left out

- File I/O: `fopen`, `fread`, `fprintf` and `fclose` are parameters. `conf_load` gets the file's content, or None when it cannot be opened. `conf_save` gets whether the file opens, and the writer's output is a sequence of lines. A failing `fread` on a non-empty file is not modelled.
- The serial port: `serial_send` and `serial_recv` are parameters. These are the send result and the successive receive results with their bytes. Once the given receives are used up, a further receive returns 0, as after a timeout.
- `chat.timeout` is kept and set, but it only goes to `serial_recv`, so no timing is modelled.
- Chat.SerialChat: the variadic argument list is a sequence. A list of 64 or more strings without a NULL is read as the first 64, and reading past the caller's arguments is not modelled.
- Chat.BytesIn: a receive that returns 0 or less still logs the byte then in the buffer. The model takes that byte as a given value and does not track the stale byte of an earlier receive.
- Characters in `src/chat.c` are signed chars (-128 to 127). Text in libconf is Dafny `char`, with no encoding.
- Values are not aliased. Setters are functions on an entry's pointer value, and the tree is a value. Two entries that share one C variable therefore do not see each other's updates, and the writes a setter makes through a section's array or a scanned address are reported as clobbering, without their effect.
- `float_get`, `float_set` and the `%p` text of `void_get`: floating-point and pointer text are not modelled. Those getters yield an undetermined text, and the writer leaves a hole for it.
- EncDec.VoidSet: the `%p` scan is modelled as the `%llX` scan, and only its NULL and failure cases are stated.
- EncDec.StringSet: a string entry whose storage holds something other than a string is reported as clobbering memory, since the model knows no block size for it; what the write then does is not modelled.
- Fixed buffers: the overflow of `token[512]` in `conf_parse` and of `buf[2048]` and `queue[1024]` in `write_section` is not modelled. The model's buffers are unbounded.
- Parse.LastLineOverruns: reading past the buffer is reported as an overrun outcome. What the C code then reads is not modelled.
- `DBG` logging and the line counter of `conf_parse` are diagnostics only and are left out.
- The codecs of `src/conf.c` that match libconf's are not repeated. Its `conf_entry_set`/`get`, parser and writer are likewise not repeated.
- `src/lookup.c`, `src/osal.c`, `src/sysconf.c`, `src/trdp_conf.c`, `src/trdp_proxy.c` and the `src/win` files are not part of this model. The `#if 0` `conf_lookup` is not part of it either.
- CNum.ScanHex: a `%X` scan of "0x" with no hex digit after it is a matching failure, as section 7.21.6.2 of ISO C11 specifies. glibc's `sscanf` instead reads such text as 0 (glibc bug 12701); the model follows the standard, and `EncDec.HexWithoutDigits` and `Parse.SectionKeyOverwrites` state their failure cases under that reading.
- Integer widths: long is 64 bits (LP64). A `%X` scan of a value that does not fit the target is reduced modulo 2^bits, as glibc does; ISO C leaves it undefined.
- Conf.EntrySet: both headers (`src/libconf/include/conf.h:209-210`, `src/include/conf.h:208-209`) declare `conf_var_set` and `conf_var_get`, but no file defines them; the model covers the defined `conf_entry_set` and `conf_entry_get` (`src/libconf/conf.c:182`, `src/libconf/conf.c:200`), which match those declarations in signature.
- Conf.EntryGet: where the getter's own text is undetermined (`%p` pointers, floats, an uninitialised hex value), the reply is reported as undetermined.
- Write.Written: the reload through `conf_parse` is proved for a section without subsections, whose fields are keys the parser reads whole and whose values print on one line. Nested sections, headers and the queue order of the second pass are not part of that proof; neither are the char and IPv4 fields, whose getters' texts are not shown to stay on one line.
