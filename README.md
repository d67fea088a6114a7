# node-getopt's BasicParser, in Dafny

This project models `BasicParser` from `lib/getopt.js`, a command-line option
parser in the style of POSIX getopt. A parser is built from an option
string such as `":f:lar(recurse)"` and an argument vector. Building it does
two things:

- It parses the option string into three fields:
  - a silent flag, set by a leading `:`;
  - a table from option character to "takes an argument";
  - a table from long name to option character.
- It splits the argument vector into a queue of tokens:
  - plain values;
  - short options;
  - long options;
  - the `value` half of `--name=value`.

Each `getopt()` call then takes the next option off the front of the queue.

The model follows the source's own form:

- `BasicParser` is a class (`getopt.dfy`). Its fields hold the tables and the token queue.
- Its methods are the source's loops. They change only the fields they name.
- Each method is proved against pure specification functions:
  - `OptionString.ParseSpec` for the option string, read as a list of entries (`option_string.dfy`);
  - `Scanner` for the same scan, by index, as the loops perform it (`scanner.dfy`);
  - `Tables` for the table folds (`tables.dfy`);
  - `Tokenizer.Tokenize` for the argument vector (`tokenizer.dfy`);
  - `Iterator.Next` for one `getopt` call (`iterator.dfy`).
- Lemmas state the properties the source promises, each about those functions.

Support modules:

- `Wrappers` holds `Option` and `Result`.
- `Text` holds `IndexOf`, modelled on JavaScript's `String.prototype.indexOf`.
- `Seqs` holds small sequence facts.

The option-string scan appears twice. `OptionString` defines it on the text
not yet scanned, which is the form the round-trip lemmas need. `Scanner`
defines it by index, as the loops run. The index form is there only so that
the method proofs stay within the verifier's budget. The bridge lemma
`Scanner.ParseSpecAt` proves the two agree.

## Model

| member | source | states |
|---|---|---|
| Getopt.NewBasicParser | lib/getopt.js:57-80 | Construction fails exactly when the option string fails to parse, with the same error. On success, the parser's tables are those of the parsed option string, every alias names a declared option, and the token queue is the tokenization of argv. |
| Getopt.BasicParser.constructor | lib/getopt.js:66-70 | The fields start empty: no tokens, empty tables, argv and opterr stored. |
| Getopt.BasicParser.ParseOptstr | lib/getopt.js:96-133 | Succeeds exactly when ParseSpec does, and otherwise reports ParseSpec's error (the position of the unmatched '('). On success, silent is ParseSpec's flag and both tables are the old tables folded with the parsed entries, left to right. |
| Getopt.BasicParser.ParseEntry | lib/getopt.js:109-131 | One turn of the outer loop: sets options[c] to the argument marker and registers the entry's names as aliases of c. Succeeds exactly when the index-based scan of the entry at i0 does, and returns where that scan stops or fails. |
| Getopt.BasicParser.ParseAliases | lib/getopt.js:119-129 | The inner loop: registers each "(name)" group in turn as an alias of chr. Stops where no group starts, or fails at a '(' with no ')' after it, reporting that '(' as MissingCloseParen. |
| Getopt.BasicParser.TokenizeOneArg | lib/getopt.js:152-191 | Appends exactly TokenizeOne(arg)'s tokens to the queue, and returns false exactly for "-", which appends nothing. |
| Getopt.BasicParser.TokenizeArguments | lib/getopt.js:142-150 | Appends exactly Tokenize(argv) to the queue. |
| Getopt.BasicParser.Getopt | lib/getopt.js:196-234 | Returns Next's outcome on the parser's tables and queue, and leaves the queue Next leaves. The tables are unchanged, and every alias still names a declared option (Valid()), so getopt can be called again. The assertion at line 217 is proved from Valid(). |
| OptionString.ParseSpec | lib/getopt.js:101-106 | On success, the silent flag is set exactly when the string is non-empty and starts with ':'. |
| OptionString.Start | lib/getopt.js:101-106 | Scanning starts at index 1 exactly when the string is non-empty and starts with ':', and at 0 exactly when it does not. |
| OptionString.HasArgMarker | lib/getopt.js:112-115 | The option character at the front takes an argument exactly when the next character is ':'. EntryHead and ScanEntryOfRender pin down what follows the marker. |
| OptionString.ScanEntry | lib/getopt.js:109-131 | One turn of the outer loop. The entry's character is the first one scanned, and its flag is the ':' marker test. The loop always moves forward, and a failure lies within the text. ScanEntryRender and ScanEntryOfRender show that it reads exactly one entry's rendering. |
| OptionString.Decompose | lib/getopt.js:108-132 | The outer loop over the whole text. It reads no more entries than characters and none exactly on empty text, and the first entry is the first character. DecomposeRender, DecomposeOfRender and DecomposeFailure pin down the rest. |
| OptionString.Names | lib/getopt.js:119-129 | The groups read leave text that is empty or does not start with '('. Reading no group consumes nothing. A failure lies within the text. |
| OptionString.RenderParse | lib/getopt.js:96-133 | Every option string that parses is the rendering of the spec it parses to, and that spec is well formed: no alias holds ')', no entry but the first has '(' as its character, and no ':' option character could be read as the marker of the entry before it. |
| OptionString.ParseRender | lib/getopt.js:96-133 | Rendering a well-formed spec and parsing the text gives the spec back. |
| OptionString.ParseFailure | lib/getopt.js:119-124 | Parsing fails only at a '(' after the silent marker with no ')' anywhere after it, and the error carries that '(''s index. |
| OptionString.Unclosed | lib/getopt.js:119-124 | Conversely, a well-formed rendering followed by '(' and text without ')' fails, at that '('. |
| OptionString.DecomposeOfRender | lib/getopt.js:108-132 | The outer loop reads a well-formed rendering back entry by entry: its scan succeeds or fails as the scan of what follows does, prepending the entries. |
| OptionString.NamesOfRender | lib/getopt.js:119-129 | The inner loop reads rendered "(a)(b)..." groups back as the same names, in order, and stops where the groups end. |
| OptionString.DecomposeFailure | lib/getopt.js:119-124 | A scan fails only at a '(' with no ')' after it, and never at the first character scanned. |
| Scanner.NamesStart | lib/getopt.js:112-119 | The alias groups of the option character at i start right after it, or one further exactly when a ':' marker follows it. |
| Scanner.NamesAt | lib/getopt.js:119-129 | The inner loop by index: on success it stops at or after j, and reading no group stops at j. A failure lies at a '(' at or after j. |
| Scanner.EntryAt | lib/getopt.js:109-131 | One turn of the outer loop by index: on success it moves past i; a failure lies at a '(' after i. |
| Scanner.DecomposeAt | lib/getopt.js:108-132 | The outer loop by index: a failure lies after i. |
| Scanner.ParseSpecAt | lib/getopt.js:96-133 | ParseSpec on the text not yet scanned agrees with the index-based scan from the first option character: the same success, entries and error position. |
| Scanner.NamesToAt | lib/getopt.js:119-129 | The groups read so far by the inner loop come first in everything read from where it started, and any failure after them is the overall failure. |
| Scanner.ScannedAll | lib/getopt.js:108-132 | When the outer loop has read the whole string, ParseSpec succeeds with exactly the entries read. |
| Scanner.ScannedToFailure | lib/getopt.js:119-124 | When the outer loop stops at an entry that fails, ParseSpec fails with that entry's error position. |
| Scanner.EntryRead | lib/getopt.js:109-131 | An entry whose groups end where no '(' follows is read as (character, marker, names), ending there. |
| Scanner.EntryUnclosed | lib/getopt.js:119-124 | An entry whose groups are followed by an unclosed '(' fails at that '('. |
| Tables.AddNames | lib/getopt.js:127 | Registering names keeps every old key, and maps every listed name to c. AddNamesSpec gives the full key set and what every other key maps to. |
| Tables.AddOptions | lib/getopt.js:117 | The fold of the writes at line 117 keeps every old key and adds every entry's character. The last entry decides its own character's flag. AddOptionsKeys, AddOptionsLast and AddOptionsKeep give the rest. |
| Tables.AddAliases | lib/getopt.js:127 | The fold of the writes at line 127 keeps every old key, and the last entry's names map to its character. AddAliasesKeys, AddAliasesLast and AddAliasesKeep give the rest. |
| Tables.TablesOf | lib/getopt.js:117-127 | The tables of a parsed option string keep its silent flag and declare every entry's character. TablesResolve shows that every alias resolves. |
| Tables.AddNamesSpec | lib/getopt.js:127 | After registering names for c, a name is a key exactly when it was one or is listed. Every listed name maps to c, so consecutive "(a)(b)" all map to c. Every other key keeps its value. |
| Tables.AddOptionsKeys | lib/getopt.js:117 | The option table holds exactly the characters of the entries and the keys it had. |
| Tables.AddOptionsLast | lib/getopt.js:117 | An option character maps to the argument flag of the last entry that declares it. |
| Tables.AddOptionsKeep | lib/getopt.js:117 | A character no entry declares keeps its old flag. |
| Tables.AddAliasesKeys | lib/getopt.js:127 | The alias table holds exactly the names of the entries and the keys it had. |
| Tables.AddAliasesLast | lib/getopt.js:127 | A long name maps to the character of the last entry that lists it. |
| Tables.AddAliasesKeep | lib/getopt.js:127 | A name no entry lists keeps its old character. |
| Tables.AddEntriesResolve | lib/getopt.js:117-127 | Folding in entries keeps every alias pointing at a declared option character. |
| Tables.TablesResolve | lib/getopt.js:216-217 | In the tables of any parsed option string, every alias names a declared option: the assertion at line 217 holds. |
| Tokenizer.ShortTokens | lib/getopt.js:168-174 | One short-option token per character, in order. |
| Tokenizer.Tokenize | lib/getopt.js:142-150 | Every argument before the first "-" yields at least one token, and a leading "-" yields none. TokenizeAppend, TokenizeStops and ValAfterLong pin it down. |
| Tokenizer.TokenizeOne | lib/getopt.js:152-191 | Yields None exactly for "-". Otherwise it yields at least one token, and a value token appears only second, right after a long-option token. |
| Tokenizer.ArgOfTokenizeOne | lib/getopt.js:156-188 | Every argument but "-" yields a well-formed group of tokens, which is written back as that argument. So no argument is lost or garbled: one ign-value token with the whole string, one short token per character after '-', or the text around the first '='. |
| Tokenizer.TokenizeOneArgOf | lib/getopt.js:156-188 | Conversely, every well-formed group of tokens is what its written-out argument yields. |
| Tokenizer.LongText | lib/getopt.js:178-188 | "--rest" is split at its first '=': the name holds no '=', and name, '=' and value make up rest. |
| Tokenizer.TokenizeAppend | lib/getopt.js:146-149 | Before the first "-", tokenizing the argument vector is the concatenation of each argument's tokens. |
| Tokenizer.TokenizeStops | lib/getopt.js:146-149 | A "-" and every argument after it produce no tokens. |
| Tokenizer.ValAfterLong | lib/getopt.js:184-187 | In the tokens of any argument vector, a value token only ever comes right after a long-option token. |
| Iterator.Dispatch | lib/getopt.js:226-233 | A known option takes the next token as its argument exactly when it needs one and that token is a value or ign-value. It then consumes that token; otherwise the queue is left as it is. |
| Iterator.Next | lib/getopt.js:196-234 | One call never grows the queue, empties it when it reports the queue exhausted, and otherwise consumes at least one token; NextTakesFront shows that it consumes only from the front. A found option is declared, and one with an argument takes an argument. |
| Iterator.NextTakesFront | lib/getopt.js:203-233 | What is left after a call is a suffix of the queue. |
| Iterator.SkipIgnored | lib/getopt.js:204-210 | Leading ign-value tokens are discarded. |
| Iterator.ExhaustedIff | lib/getopt.js:200-210 | A call reports no more options exactly when every token left is an ign-value. |
| Iterator.UnknownShort | lib/getopt.js:219-223 | An unknown short character is reported as optopt, and only its token is consumed. |
| Iterator.UnknownLong | lib/getopt.js:212-214 | An unknown long name is reported as optopt, and only its token is consumed. |
| Iterator.WithArgument | lib/getopt.js:226-233 | A known option that needs an argument, followed by a value or ign-value, consumes exactly that token as its optarg. |
| Iterator.WithoutArgument | lib/getopt.js:226-230 | A known option that needs no argument, or that is not followed by a value, is returned alone, and the rest of the queue is left as it is. |
| Iterator.StrayValue | lib/getopt.js:219 | A value token where an option is expected is an error, and it is consumed. |
| Text.IndexOf | lib/getopt.js:121 | The result is -1 or an index at or after `from` holding the character. |
| Text.IndexOfFirst | lib/getopt.js:121 | -1 means the character does not occur at or after `from`. Otherwise the result is its first occurrence there. |

## Left out

- The type assertions on optstring and argv (lib/getopt.js:61-64, 73-74) are not modelled. Dafny's `string` and `seq<string>` types make them hold.
- The copy of argv into gop_argv (lib/getopt.js:66, 72-76) is an assignment of an immutable sequence.
- opterr: only `opterr === true` is modelled, as a `bool` field that is stored and never read, as in the source (lib/getopt.js:67).
- The message text built by goError (lib/getopt.js:47-50, 123-124) is not modelled. The thrown error is `SpecError.MissingCloseParen`, which carries the same index the message reports. NewBasicParser returns it as a failed `Result` in place of the exception.
- Getopt.BasicParser.ParseOptstr: after a missing ')' its contract says nothing about the tables. The source leaves them half-updated, but the constructor then throws and the object is never seen.
- The loop body of parseOptstr is split into its own methods. ParseEntry is one turn of the outer loop, and ParseAliases is the inner loop. Each keeps the source's statements in the source's order.
- JavaScript objects used as maps are modelled as Dafny maps. Keys inherited from the object prototype, which `in` also sees (`--toString`, say), are left out.
- Strings are sequences of `char`, and a Dafny `char` is a Unicode scalar value. The source indexes strings by UTF-16 code unit, which the model does not do. In the source an astral character in "-abc" becomes two short-option tokens, one per surrogate half, where the model gives one token. The same holds in the option string: lib/getopt.js:109 reads one code unit at a time, so an astral option character becomes two keys of the option table, one per surrogate half. The first half never gets a ':' marker or aliases; the ':' test at line 112 and the "(name)" groups at lines 119-127 attach to the second half. So in the source an alias of that character, given as "--name", returns the low surrogate as the option, where the model returns the whole character. The places where the source cuts a string (after "--", at the first '=', between '(' and ')') always cut next to a character of the Basic Multilingual Plane, so names and values are the same in both.
- The assertion at lib/getopt.js:219 fails when a value token reaches the front of the queue. That happens after `--name=value` for an unknown name, or for an option that takes no argument. It is modelled as the explicit error `IterError.UnexpectedValue`, and the value token is consumed, since the shift at line 203 happens first.
- The tail call at lib/getopt.js:209 that skips ign-value tokens is a loop in the method. The recursive `Iterator.Next` specifies it.
- `undefined` at lib/getopt.js:201 is `Reply.Exhausted`; `{option: '?', optopt}` is `Reply.Unknown`.
- The queue is a sequence field. `shift` reassigns it to its tail.
- examples/examples.js is a demo driver that prints results. It is not part of this model.
