# autostatus rule engine in Dafny

This project models the rule engine of the Pidgin plugin autostatus, `autostatus.c`. The plugin sets every active account's status message from the network the host is on. Its configuration file is a list of two-line records. Line 1 is a CIDR block `A.B.C.D/N`; line 2 is a status text. Every 10 seconds the plugin:

- reads the host's address as dotted-quad text;
- only when that text differs from the one cached, caches it, converts it to a 32-bit integer and picks the rule with the longest prefix that covers the address, whose status text becomes the chosen status;
- on each account, sets the chosen status followed by the account's saved message, whether or not it was just recomputed.

The model has these modules, one file each:

- `Bytes` (bytes.dfy): bytes, 32-bit unsigned values, NUL-terminated buffers, line ends, byte counts and the decimal accumulation `x*10 + (c - '0')` with its 32-bit wrap-around.
- `Rules` (rules.dfy): the `struct Rule`, the packing `(ip[0]<<24) + (ip[1]<<16) + (ip[2]<<8) + ip[3]` of four octets, and the prefix match.
- `RuleParser` (parser.dfy): `load_one_rule`. The specification function `ParseRule` sits beside the imperative `LoadOneRule`, which writes into the rule array. It is followed by the lemmas on which lines are accepted, which are rejected, and what a parsed rule holds.
- `Config` (config.dfy): the sequence of rules the parse loop of `load_config` stores, `ParseAll`. Also the capacity bound, and a round trip from configuration entries to their text and back.
- `IpText` (address.dfy): `ip_atoi` as a loop over the text, proved against the value the text denotes.
- `Selection` (matcher.dfy): the longest-prefix selection loop of `set_status_all`. Its declarative specification says the selected rule has a longer prefix than every earlier match and at least the prefix of every later match.
- `AutoStatus` (plugin.dfy): the plugin's globals as a class. Its methods are `load_config`, with the file contents given, and the parts of `set_status_all` modelled here: the address cache, the selection and the message composition of `set_status`.

The C buffer is NUL-terminated (`g_file_get_contents` appends the NUL). The model reads every offset at or past the end of the data as NUL. A NUL inside the data ends the input, as it does in C. `unsigned int` and `guint32` arithmetic is modulo 2^32 and is written out.

Quirks of the code that the model keeps:

- **Netmask 0.** A `0.0.0.0/0` rule is never selected, so it does not act as a default: `max_len` starts at 0 and must be exceeded. `Selection.DefaultRuleNotApplied` and `Selection.CatchAllNeverSelected` state this.
- **Quirks of line 1.**
  - The fourth octet is range-checked only when a `.` follows it.
  - The prefix length is never range-checked.
  - A CR is skipped anywhere in line 1, not just before the line break.
  - A `/` or `.` inside the prefix length is accepted: `1.2.3.4/2.4` gives 24.
- **Malformed records.** A malformed record does not fail the load. The rules before it are kept and the loop stops there.

## Model

| member | source | states |
|---|---|---|
| RuleParser.Step | autostatus.c:117-154 | one byte of the line-1 `switch`: only digits, `.`, `/` and CR can be accepted, and a `.` or `/` that does not follow a digit is rejected |
| Bytes.LineEnd | autostatus.c:117 | the loop condition `ch[i]!=0 && ch[i]!='\n'` of both line loops: the first offset from the start that holds NUL or LF, never before the start nor past the terminator |
| Bytes.Shift | autostatus.c:142 | one accumulation `x*10 + (c - '0')` in `unsigned int`, modulo 2^32; its partner `Bytes.Decimal` reads an octet's text back to its value |
| Bytes.DecimalValue | autostatus.c:145 | the accumulator after a run of digits, from 0, each by `Shift`; `Bytes.Decimal` states that the decimal text of an octet gives the octet |
| Rules.Pack | autostatus.c:167 | the packing `(ip[0]<<24) + (ip[1]<<16) + (ip[2]<<8) + ip[3]` in 32 bits; `Rules.PackOctets` and `Rules.PackInjective` state its properties |
| Rules.Matches | autostatus.c:371 | the mask test, as equal quotients by 2^(32 - netmask); `Rules.MatchesNetmaskZero` and `Rules.MatchesNetmaskFull` state its boundary cases |
| Config.ParseAll | autostatus.c:212-216 | the rules the parse loop stores, up to the first record that does not parse; `Config.ParseAllBound` and `Config.ConfigRoundTrip` state its properties |
| IpText.IpOf | autostatus.c:237 | the value `ip_atoi` returns for a well-formatted text: its four field values packed; `IpText.IpOfDottedQuad` reads an address's text back to the address |
| RuleParser.ParseRule | autostatus.c:104-180 | a parsed record ends after its start and within the buffer |
| RuleParser.ParseRuleLayout | autostatus.c:155-174 | a NUL before line 1's LF, or before line 2's LF, rejects the record; on success the status is exactly line 2 without its LF, and the new cursor is one past that LF |
| RuleParser.LoadOneRule | autostatus.c:104-180 | returns TRUE exactly when the record parses; then it stores the parsed rule in its slot, leaves every other slot alone and moves the cursor past the record; on FALSE it writes neither the array nor the cursor |
| RuleParser.ScanFirstLine | autostatus.c:116-157 | the line-1 loop computes the scanner state over the bytes up to the first LF or NUL, and stops at that byte |
| RuleParser.ScanByte | autostatus.c:118-152 | one pass of the `switch` is the step function `Step` |
| RuleParser.FindLineEnd | autostatus.c:159-163 | the line-2 loop stops at the first LF or NUL |
| RuleParser.RejectsForeignByte | autostatus.c:150-151 | a byte in line 1 other than a digit, `.`, `/` or CR rejects the record |
| RuleParser.RejectsSeparatorWithoutDigit | autostatus.c:119-127 | a `.` or `/` not preceded by a digit (CRs aside) rejects the record |
| RuleParser.RejectsSlashWithoutThreeDots | autostatus.c:126-127 | a `/` with other than three dots before it rejects the record |
| RuleParser.RejectsWideOctet | autostatus.c:119-122 | an address octet above 255 that a `.` closes rejects the record |
| RuleParser.ScanNeedsDigit | autostatus.c:114-140 | `n_num` is set exactly when the line so far does not end in a digit |
| RuleParser.ScanCountsDots | autostatus.c:119-125 | `ip_index` is the number of dots read so far |
| RuleParser.ParsedRuleShape | autostatus.c:117-168 | an accepted line 1 has the form: four non-empty digit fields, the first three at most 255, then `/` and a prefix ending in a digit with at most one more `.`; a `.` there implies that the fourth field is at most 255; the rule's address packs the four field values and its prefix is the value of the digits after the `/` |
| RuleParser.ParseRuleConsumesTwoLines | autostatus.c:155-174 | a parsed record spans exactly two LF bytes |
| RuleParser.ParseRuleShift | autostatus.c:107-174 | the outcome at a cursor does not depend on the bytes before it |
| RuleParser.ParseCanonical | autostatus.c:104-180 | the text `a.b.c.d/n`, LF, status, LF parses to the packed address, prefix `n` and that status, whatever follows, when the first three octets are at most 255 |
| RuleParser.ParseSplitNetmask | autostatus.c:126-142 | a `/` or `.` inside the prefix digits is passed over: the prefix is the value of all its digits; with `.` the fourth octet must be at most 255 |
| RuleParser.ParseWithNetmask | autostatus.c:141-168 | a valid address followed by netmask text that the scanner accepts parses to the packed address and the scanned netmask |
| RuleParser.ScanIgnoresCR | autostatus.c:148-149 | a CR anywhere in line 1 leaves the scanner state unchanged |
| RuleParser.CarriageReturnIgnored | autostatus.c:148-172 | a CR in line 1 changes only where the record ends; the rule parsed is the same, and its status is line 2 as written, any CR in it kept |
| RuleParser.ParseRecord | autostatus.c:155-174 | a record of two LF-ended lines parses by line 1 alone, with the status being line 2 |
| Rules.PackOctets | autostatus.c:167 | packing four octets is big-endian: each octet is read back from its byte of the result |
| Rules.PackInjective | autostatus.c:167 | distinct octet quadruples pack to distinct addresses |
| Rules.PackCarriesLastOctet | autostatus.c:167 | an unchecked fourth octet carries into the third: `1.2.3.300` packs as `1.2.4.44` |
| Rules.MatchesNetmaskZero | autostatus.c:370-371 | prefix length 0 covers every address |
| Rules.MatchesNetmaskFull | autostatus.c:371 | prefix length 32 covers the rule's own address and no other |
| Config.ParseAllBound | autostatus.c:200-216 | the records parsed from a cursor are at most half the LF bytes after it |
| Config.CapacitySuffices | autostatus.c:200-209 | the `(count + 1) / 2` slots allocated hold every rule the loop stores |
| Config.ParseAllShift | autostatus.c:212-216 | the rules read from a cursor do not depend on the bytes before it |
| Config.RecordParses | autostatus.c:182-187 | one record in the documented format parses to its entry's rule and ends where its text ends |
| Config.ConfigRoundTrip | autostatus.c:182-216 | writing entries out and loading the text gives their rules in order, and loading goes on into what follows |
| Config.ConfigLoadsEntries | autostatus.c:212-216 | a file of entries followed by a record that does not parse loads exactly the entries' rules |
| IpText.Split | autostatus.c:227-231 | a text has one more field than it has separators |
| IpText.IpAtoi | autostatus.c:224-238 | for a well-formatted text (digits and exactly three dots, each field below 256), the loop yields the four fields' values packed |
| IpText.IpOfDottedQuad | autostatus.c:224-238 | the dotted-quad text of four octets is well formatted and converts back to their packing, the same packing the rule parser uses |
| Selection.SelectRule | autostatus.c:364-376 | `found` holds exactly when some rule with a positive prefix covers the address; then `fit` is the selected rule: a candidate with a longer prefix than every earlier candidate and at least the prefix of every later one |
| Selection.SelectionUnique | autostatus.c:365-376 | at most one rule is the selected one |
| Selection.SelectionExists | autostatus.c:365-376 | whenever some rule is a candidate, one rule is selected |
| Selection.CatchAllNeverSelected | autostatus.c:366-370 | a rule with prefix length 0 covers every address yet is never selected |
| Selection.LongestPrefixWins | autostatus.c:364-381 | with 10.0.0.0/8 and 10.1.0.0/16, the address 10.1.2.3 gets the second rule, 10.2.0.1 the first, and 11.1.2.3 none |
| Selection.FirstDeclaredWinsTie | autostatus.c:370-375 | of two rules for the same network and prefix, the first declared is a candidate whenever the later one is, and the later one is never selected |
| Selection.DefaultRuleNotApplied | autostatus.c:366-381 | beside 192.168.1.0/24, a rule 0.0.0.0/0 gives 8.8.8.8 no rule, while 192.168.1.5 gets the /24 |
| AutoStatus.Compose | autostatus.c:331-337 | the message is the chosen status followed by the saved message, or the status alone when there is no saved message |
| AutoStatus.ComposeEmpty | autostatus.c:311-337 | an empty saved message gives the same message as none |
| AutoStatus.Plugin.constructor | autostatus.c:71-75 | no rules, address 0, an empty status and a cache holding no address text |
| AutoStatus.Plugin.LoadConfig | autostatus.c:188-221 | an unreadable file changes nothing and returns FALSE; otherwise it allocates a fresh array of `(count + 1) / 2` slots, fills its first `rule_cnt` slots with the rules parsed up to the first failure, and returns TRUE |
| AutoStatus.Plugin.CountRules | autostatus.c:200-204 | the count goes up by the number of LF bytes in the file |
| AutoStatus.Plugin.ParseRules | autostatus.c:211-216 | the array's first `rule_cnt` slots hold exactly the rules parsed until the first failure, and every write is in bounds |
| AutoStatus.LoadStep | autostatus.c:214-215 | one round of the parse loop: a parsed rule goes into the next slot, which exists, and the stored rules followed by those still to come stay the whole list |
| AutoStatus.Plugin.SetStatusAll | autostatus.c:354-400 | when the address text equals the cached one, the address and the status are kept; otherwise the text is cached, converted, and the status becomes that of the selected rule, or empty when no rule is selected; each account's message is the composition of the status with its saved message |

## Left out

- The `trace` logging (autostatus.c:84-101): file output and the debug sink, which have no effect on the state modelled.
- Reading the configuration file and looking up its path in the preferences. `LoadConfig` takes the contents as an input, None when the file cannot be read.
- The preference frame, the plugin actions, the plugin info, the load and init hooks and the 10-second timer: wiring into the host application.
- Calls into the host application become parameters of `SetStatusAll`:
  - `purple_network_get_my_ip` becomes the address text `ip`;
  - the saved-status lookup becomes `saved`, one entry per active account with non-NULL data, None for a NULL message;
  - applying each message to its account is replaced by returning the messages.
- The undefined behaviour in the source is excluded from the model:
  - A digit after a fourth `.` in line 1 would be written to `ip[4]`, past the array. The model rejects the line at that digit. Such a line is rejected at the end of the line anyway, for lack of a `/` after exactly three dots.
  - `Selection.SelectRule`: requires every prefix length to be at most 32. A larger one makes the unsigned `32 - netmask` wrap around, so the C shifts by 32 bits or more, which is undefined. `AutoStatus.Plugin.SetStatusAll` demands it only when the address text changed, the only case in which the C evaluates the shift.
  - `AutoStatus.Plugin.LoadConfig`: requires that the counted LF bytes do not wrap the 32-bit `rule_cnt`. A wrapped count would allocate an array smaller than the rules written.
  - `IpText.IpAtoi`: requires a well-formatted text, as its comment demands: digits and dots only, exactly three dots, and every field below 256, which its asserts check. A fourth dot would write past `ip[3]`. A byte other than a digit would add `c - '0'`, whose value depends on whether `char` is signed.
- `str_myip` is modelled as a stored value. Before the first update it is a cache with no text, which compares unequal to any address. The 15-byte buffer from `plugin_load`, uninitialised and too small for a 15-character address with its NUL, is not modelled.
- `malloc` and `free` of the rule array and the status strings, and the C string copies `strcpy`/`strcat`. These are modelled as values or as a fresh array.
- `Rules.Matches` states the bitwise test `((myip ^ ip) & (~0 << (32 - netmask))) == 0` arithmetically: both addresses have the same quotient by 2^(32 - netmask). Bit-vector operations are not modelled.
- `RuleParser.CarriageReturnIgnored`: states the CR property only about records whose two lines both end in LF. Records cut short by the end of the input are rejected with or without the CR; only the well-terminated records are covered.
