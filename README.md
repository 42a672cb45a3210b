# pretty-ls file-name classifier, modelled in Dafny

pretty-ls (`pls`) is an `ls` replacement that colours each file name. This
project models the classifier that picks the colour. It has three parts:

- **The rule store** (`pls-classifier/src/configuration.rs`).
  - A configuration file under `$HOME/.pls/conf` holds `pattern=value` pairs under `[colours]` and bare flags under `[flags]`.
  - `Configuration` loads the file into an ordered list of entries. If the file does not exist, it starts from three default rules.
  - `get_value` answers a lookup with the value of the first pair whose regular expression matches the file name.
  - When the store is dirty, the file is written back on drop.
- **The colour front end** (`src/classifier/lookup.rs`).
  - `get_color` reads the value it finds as a `#RRGGBB` hex colour (`str_to_rgb`).
  - It falls back to grey 200/200/200 as a whole, or channel by channel.
- **The older front end** (`pls-classifier/src/lookup.rs`). It returns the value as it is, or `gray`.

Files:

- `wrappers.dfy`: `Option` and `Result`, as in Rust.
- `regex.dfy`: the regular-expression engine, kept abstract. An `Engine` is a pair of functions. One says whether a pattern compiles (`Regex::new` succeeds). The other says whether a compiled pattern matches a text (`is_match`).
- `config.dfy`:
  - the entry datatype, and the line parser and renderer;
  - the section-header test, and what `load` keeps of a file's text;
  - the text `sync` writes, and the first-match lookup;
  - `class Configuration`, with the imperative `add_entry`, `get_value`, `use_default_configuration`, `load`, `sync` and drop;
  - `class ConfFile`, the file on disk: its contents, or `None` while it does not exist.
- `config_proofs.dfy`: what the rule store promises, as lemmas.
- `color_lookup.dfy`:
  - UTF-8 byte length, and `u8::from_str_radix(_, 16)`;
  - `str_to_rgb` as an imperative method over a three-byte array;
  - the colour front end and its lemmas.
- `name_lookup.dfy`: the older front end and its lemmas.

Where the code does something other than one might expect, the model follows the code:

- `add_entry` leaves `dirty` as it was.
- A line `a=b=c` becomes the pair `a`/`b`: whatever follows a second `=` is dropped.
- An existing but empty file gives an empty store, not the defaults.
- `load` pops the last character of every chunk `read_line` returns. That includes a final line without a newline: `a=bc` loads as `a`/`b`.
- `str_to_rgb` compares the byte length with 7 but then reads characters. An input such as `#ééé` (7 bytes, 4 characters) makes an `expect` panic. The model shows that as the outcome `Panic`.
- `from_str_radix` accepts a leading `+`, so `#+f+f+f` is 15/15/15.
- `ConfigurationEntry::is_pair` is the datatype test `Pair?`.

## Model

| member | source | states |
|---|---|---|
| Config.ParseEntrySpec | pls-classifier/src/configuration.rs:36-48 | A line without `=` is the flag holding the whole line. A line with `=` is a pair. Its pattern is the text before the first `=`, and its value is the text up to the second `=` or the end. Neither holds `=`, and anything after a second `=` is dropped. |
| Config.ParsePairLine | pls-classifier/src/configuration.rs:36-48 | `p=v` parses to the pair `p`/`v` whenever neither holds `=`. |
| Config.ParseEntry | pls-classifier/src/configuration.rs:36-48 | Reference definition of `ConfigurationEntry::new`. A flag holds the whole line, and a pair's pattern followed by `=` begins the line. The exact split is specified by ParseEntrySpec, ParseRender and RenderParse. |
| Config.Render | pls-classifier/src/configuration.rs:19-24 | Reference definition of `Display::fmt`. An entry without `=` in its strings is a pair exactly when its rendering holds an `=`. ParseRender, RenderParse and ParseIdempotent relate it to parsing. |
| Config.EntryEq | pls-classifier/src/configuration.rs:27-31 | Reference definition of `eq`. Equal entries are `eq`, and two flags are `eq` exactly when they are equal. EntryEqIff, EntryEqConflates and EntryEqEquivalence specify the rest. |
| Config.IsSectionHeader | pls-classifier/src/configuration.rs:131 | Reference definition of the section-header regex. A header holds a `[` and a `]`. SectionHeaderSpec gives the exact condition. |
| Config.ChunkEntries | pls-classifier/src/configuration.rs:137-143 | Reference definition of what `load` keeps of one `read_line` chunk. It keeps at most one entry. A flag it keeps is the chunk without its popped last character. |
| Config.LoadEntries | pls-classifier/src/configuration.rs:126-152 | Reference definition of `load`. It yields at most one entry per character of the file. LoadEmpty, LoadOneLine, LoadAppend, LoadUnlines and LoadUnambiguous specify it. |
| Config.SyncText | pls-classifier/src/configuration.rs:159-175 | Reference definition of the file `sync` writes. It is never empty and ends with a newline. SyncTextLines, SyncTextLayout and SyncRoundTrip specify it. |
| Config.FindValue | pls-classifier/src/configuration.rs:82-95 | Reference definition of `get_value`. A found value is the value of a pair in the store whose pattern compiles. An error names a pair in the store whose pattern does not compile. FindValueAt, FindValueNone and FindValueSound specify it exactly. |
| Config.DefaultRules | pls-classifier/src/configuration.rs:117-120 | The three default lines parse to the pairs `.*\.js$`/`yellow` and `.*\.java$`/`orange`, then the flag `no_permissions`. |
| Config.ConfFile.Writeln | pls-classifier/src/configuration.rs:154-157 | `file_writeln` appends the data and one newline to the file. |
| Config.Configuration.constructor | pls-classifier/src/configuration.rs:99-115 | The store keeps the file it was opened on and only reads it. An existing file, even an empty one, is loaded and the store is clean. A missing file gives the default rules and a dirty store. |
| Config.Configuration.AddEntry | pls-classifier/src/configuration.rs:78-80 | Exactly the parsed entry is appended at the end. Earlier entries and `dirty` are unchanged. |
| Config.Configuration.GetValue | pls-classifier/src/configuration.rs:82-95 | The early-return loop returns what the first-match lookup `FindValue` specifies. |
| Config.Configuration.UseDefaultConfiguration | pls-classifier/src/configuration.rs:117-124 | The three default rules are appended in order, and the store becomes dirty. |
| Config.Configuration.Load | pls-classifier/src/configuration.rs:126-152 | The `read_line` loop appends exactly the entries `LoadEntries` gives for the file text, in file order. `dirty` is unchanged. |
| Config.Configuration.LoadLine | pls-classifier/src/configuration.rs:137-147 | One chunk: its last character is popped. The line is added unless it is empty or a section header. |
| Config.Configuration.Sync | pls-classifier/src/configuration.rs:159-175 | The store's own file is truncated and ends up holding `SyncText` of the entries. That is `[colours]`, the pairs, a blank line, `[flags]`, then the flags. |
| Config.Configuration.Finalize | pls-classifier/src/configuration.rs:181-185 | On drop the store's own file is rewritten exactly when the store is dirty. Otherwise it is untouched. |
| ConfigProofs.ParseRender | pls-classifier/src/configuration.rs:19-48 | A parsed line holds no `=` in its strings and renders to a prefix of the line. It renders to the whole line exactly when the line has at most one `=`. |
| ConfigProofs.RenderParse | pls-classifier/src/configuration.rs:19-48 | An entry without `=` in its strings parses back from its rendering. |
| ConfigProofs.ParseIdempotent | pls-classifier/src/configuration.rs:19-48 | Re-parsing the rendering of a parsed line gives the same entry. |
| ConfigProofs.EntryEqIff | pls-classifier/src/configuration.rs:27-31 | On entries without `=`, `eq` holds exactly when the entries are equal. |
| ConfigProofs.EntryEqConflates | pls-classifier/src/configuration.rs:27-31 | `eq` calls the pair `a`/`b` equal to the flag `a=b`, though they differ. |
| ConfigProofs.EntryEqEquivalence | pls-classifier/src/configuration.rs:27-31 | `eq` is reflexive, symmetric and transitive. |
| ConfigProofs.SectionHeaderSpec | pls-classifier/src/configuration.rs:131 | A line is a section header exactly when some `[` has a `]` after it. |
| ConfigProofs.NoBracketNoHeader | pls-classifier/src/configuration.rs:131 | A line without `[` is never a section header. |
| ConfigProofs.FindValueSkip | pls-classifier/src/configuration.rs:83-92 | Flags, and pairs whose compiling pattern does not match, do not affect the answer. |
| ConfigProofs.FindValueAt | pls-classifier/src/configuration.rs:82-95 | The first entry not stepped over decides the answer. If its pattern compiles, the answer is `Ok(Some(value))`. If not, it is `Err` naming that pattern. |
| ConfigProofs.FindValueNone | pls-classifier/src/configuration.rs:82-95 | `Ok(None)` is the answer exactly when every entry is stepped over. |
| ConfigProofs.FindValueSound | pls-classifier/src/configuration.rs:82-95 | Every other answer comes from the first entry not stepped over. |
| ConfigProofs.FindValueAppend | pls-classifier/src/configuration.rs:83-94 | Over `a + b`, the lookup consults `b` only when `a` gives `Ok(None)`. |
| ConfigProofs.AddEntryKeepsAnswers | pls-classifier/src/configuration.rs:78-95 | Appending an entry never changes a found value or an error. An `Ok(None)` answer may change. |
| ConfigProofs.FindValuePairs | pls-classifier/src/configuration.rs:84-90 | Flags are never consulted: the pairs alone, in order, give the same answer. |
| ConfigProofs.FindValueFlags | pls-classifier/src/configuration.rs:90 | The flags alone answer `Ok(None)`. |
| ConfigProofs.PartitionSpec | pls-classifier/src/configuration.rs:164-171 | The pairs section holds only pairs of the store, and the flags section only flags. Together they are a rearrangement of the store. |
| ConfigProofs.PartitionAppend | pls-classifier/src/configuration.rs:164-171 | Filtering the pairs or the flags distributes over concatenation. |
| ConfigProofs.PartitionIdempotent | pls-classifier/src/configuration.rs:164-171 | Filtering twice changes nothing. The pairs hold no flag and the flags no pair. |
| ConfigProofs.LoadEmpty | pls-classifier/src/configuration.rs:133-136 | An empty file loads no entries. |
| ConfigProofs.LoadUnterminated | pls-classifier/src/configuration.rs:139 | A final line without a newline loses its last character: `a=bc` loads as `a`/`b`. |
| ConfigProofs.LoadUnambiguous | pls-classifier/src/configuration.rs:126-152 | No loaded entry holds `=` in its strings. |
| ConfigProofs.LoadFromShift | pls-classifier/src/configuration.rs:133-149 | The entries loaded from a point on do not depend on the text before it. |
| ConfigProofs.LoadAppend | pls-classifier/src/configuration.rs:133-149 | Text made of whole lines, followed by more text, loads as the two parts one after the other. |
| ConfigProofs.LoadOneLine | pls-classifier/src/configuration.rs:133-147 | One newline-terminated line loads as its entry, or as nothing if it is empty or a header. |
| ConfigProofs.LoadUnlines | pls-classifier/src/configuration.rs:126-157 | Text written line by line with `file_writeln` loads as the entries kept for those lines, in order. |
| ConfigProofs.UnlinesAppend | pls-classifier/src/configuration.rs:154-157 | Writing two runs of lines writes their texts one after the other. |
| ConfigProofs.KeptRendered | pls-classifier/src/configuration.rs:139-143 | The renderings of storable entries are kept by `load` as exactly those entries. |
| ConfigProofs.SyncTextLines | pls-classifier/src/configuration.rs:159-175 | The written file is the lines `[colours]`, the pairs, an empty line, `[flags]`, the flags. |
| ConfigProofs.SyncTextLayout | pls-classifier/src/configuration.rs:159-175 | The written file is `[colours]\n`, the pair lines, `\n[flags]\n`, then the flag lines. |
| ConfigProofs.SyncRoundTrip | pls-classifier/src/configuration.rs:126-175 | The file `sync` writes loads back as the pairs, then the flags, each in their original order. This holds when no string holds `=` or a newline, no rendering holds a `[` with a `]` after it, and no flag is empty. |
| ConfigProofs.SyncStable | pls-classifier/src/configuration.rs:126-175 | Writing, loading and writing again yields the same file. |
| ConfigProofs.SyncPreservesLookups | pls-classifier/src/configuration.rs:82-175 | After the file is written and loaded again, every lookup answers as before. |
| ConfigProofs.DefaultsStorable | pls-classifier/src/configuration.rs:117-124 | The default rules meet the round-trip condition. |
| ConfigProofs.DefaultPartition | pls-classifier/src/configuration.rs:117-124 | The default rules are two pairs and one flag. |
| ConfigProofs.DefaultFile | pls-classifier/src/configuration.rs:117-175 | On a first run the file written is `[colours]`, `.*\.js$=yellow`, `.*\.java$=orange`, a blank line, `[flags]`, `no_permissions`. |
| ColorLookup.Utf8Len | src/classifier/lookup.rs:40 | A string's byte length lies between its character count and four times that. |
| ColorLookup.Utf8LenAscii | src/classifier/lookup.rs:40 | The byte length equals the character count exactly when the string is ASCII. |
| ColorLookup.Utf8LenAppend | src/classifier/lookup.rs:40 | Byte lengths add over concatenation. |
| ColorLookup.FromStrRadix16 | src/classifier/lookup.rs:55 | Reference definition of `u8::from_str_radix(_, 16)`. A success needs a non-empty string that starts with `+` or a hex digit. A single hex digit parses to its own value. FromStrRadixPair and Hex2RoundTrip specify the two-character case. |
| ColorLookup.FromStrRadixPair | src/classifier/lookup.rs:55 | Two characters parse as two hex digits, or as `+` and one hex digit. Anything else fails. |
| ColorLookup.Hex2RoundTrip | src/classifier/lookup.rs:55 | Every byte written as two hex digits parses back to itself. |
| ColorLookup.DecodeColor | src/classifier/lookup.rs:37-63 | Reference definition of `str_to_rgb`. Any colour other than 200/200/200 needs at least seven characters and a leading `#`. StrToRgb, DecodeEncode, DecodeDefault and the lemmas below specify it. |
| ColorLookup.StrToRgb | src/classifier/lookup.rs:37-63 | The buffer-and-iterator loop returns the colour `DecodeColor` specifies, or panics where it does. |
| ColorLookup.DecodeEncode | src/classifier/lookup.rs:37-63 | Every colour written as `#RRGGBB` decodes to itself. |
| ColorLookup.DecodeDefault | src/classifier/lookup.rs:38-43 | ASCII input under 7 characters, or not starting with `#`, is 200/200/200. |
| ColorLookup.DecodeExample | src/classifier/lookup.rs:44-58 | `#ffaa00` is 255/170/0. |
| ColorLookup.DecodeFaultTolerant | src/classifier/lookup.rs:55-57 | A channel that does not parse stays 200 while the others decode: `#gg0000` is 200/0/0. |
| ColorLookup.DecodePlusSign | src/classifier/lookup.rs:55 | `#+f+f+f` is 15/15/15. |
| ColorLookup.DecodeIgnoresTail | src/classifier/lookup.rs:44-58 | Characters after the seventh are never read. |
| ColorLookup.DecodeAsciiTotal | src/classifier/lookup.rs:40-53 | ASCII input never panics. |
| ColorLookup.DecodePanics | src/classifier/lookup.rs:40-53 | `#ééé` passes the byte-length check and then runs out of characters: it panics. |
| ColorLookup.ConfigurationLookup.constructor | src/classifier/lookup.rs:15-19 | The lookup opens a new rule store of its own, as `Configuration::new` does. |
| ColorLookup.ConfigurationLookup.GetColor | src/classifier/lookup.rs:21-31 | A found value is decoded. No value, or an invalid rule, gives 200/200/200. |
| ColorLookup.ColorOf | src/classifier/lookup.rs:21-31 | Reference definition of what `get_color` makes of a lookup's answer. A colour other than 200/200/200 comes from a found value of at least seven characters. ColorFirstMatch, ColorNoMatch and ColorInvalidRule specify it. |
| ColorLookup.ColorFirstMatch | src/classifier/lookup.rs:21-24 | The colour is the decoded value of the earliest pair whose pattern matches. |
| ColorLookup.ColorNoMatch | src/classifier/lookup.rs:25 | A name no pattern matches is 200/200/200. |
| ColorLookup.ColorInvalidRule | src/classifier/lookup.rs:27-30 | A non-compiling pattern reached before any match gives 200/200/200. |
| ColorLookup.ColorAsciiTotal | src/classifier/lookup.rs:21-31 | With ASCII rule values, `get_color` never panics. |
| ColorLookup.DefaultValuesAreGrey | src/classifier/lookup.rs:40 | `yellow` and `orange` are under 7 bytes, so they decode to 200/200/200. |
| ColorLookup.DefaultRulesAreGrey | src/classifier/lookup.rs:21-31 | Under the default rules every file is 200/200/200, `.js` and `.java` files included. |
| NameLookup.ConfigurationLookup.constructor | pls-classifier/src/lookup.rs:13-17 | The lookup opens a new rule store of its own, as `Configuration::new` does. |
| NameLookup.ConfigurationLookup.GetColor | pls-classifier/src/lookup.rs:19-26 | The result is `gray` or the value of some pair in the store. |
| NameLookup.ColorName | pls-classifier/src/lookup.rs:19-26 | Reference definition of what the older `get_color` makes of a lookup's answer. Any name other than `gray` is exactly the value found. The ColorName lemmas below specify it. |
| NameLookup.ColorNameSound | pls-classifier/src/lookup.rs:19-26 | Whatever the lookup answers, the name is `gray` or the value of some pair. |
| NameLookup.ColorNameFirstMatch | pls-classifier/src/lookup.rs:20-21 | Where several patterns match, the earliest one's value is returned. |
| NameLookup.ColorNameNoMatch | pls-classifier/src/lookup.rs:9-21 | A name no pattern matches gets `gray`. |
| NameLookup.ColorNameInvalidRule | pls-classifier/src/lookup.rs:24-25 | A non-compiling pattern reached before any match gives `gray`, not a failure. |
| NameLookup.DefaultRuleNames | pls-classifier/src/lookup.rs:19-26 | Under the default rules a file gets `yellow`, `orange` or `gray`. |

## Left out

- The regular-expression engine (the `regex` crate) is a foreign library. Which patterns compile, and what a pattern matches, are parameters of every lookup. The two fixed patterns of the rule store are modelled exactly: "contains `=`" and "a `[` with a `]` after it".
- Reading `HOME` and building the path (a panic when `HOME` is unset) are not modelled. The file is the `ConfFile` handed to the constructor. The store keeps it, as the `absolute_path` field does, and `Sync` and `Finalize` write to it.
- `create_dir` of `$HOME/.pls` is not modelled.
- `File::open`, `File::create`, `BufReader` and `flush` become reads and writes of `ConfFile.contents`. Their `io::Error` results, and the panics of the `expect` calls on them, are not modelled.
- Config.Configuration.Load: it reads the whole text as Rust `char`s. Invalid UTF-8, which makes `read_line` fail, is not modelled.
- Config.Configuration.Sync: it writes every line in full. `file_writeln` calls `write`, which may write only part of a buffer, and it ignores the count; that is not modelled.
- termion's rendering of `Fg(Rgb(..))` as an escape sequence is not modelled. The colour front end stops at the RGB triple.
- The `println!` diagnostics for invalid rules are not modelled.
- `src/classifier/lookup.rs` imports a `Configuration` from `src/classifier/configuration.rs`, which is not part of this model. The colour front end is modelled over the rule store of `pls-classifier/src/configuration.rs` instead. Any difference between the two stores is not captured.
- `Drop` runs implicitly in Rust. Here it is the explicit method `Finalize`.
- Concurrent use of the configuration file is not modelled.
- pls-classifier/src/lookup.rs:21 calls `unwrap_or(DEFAULT_COLOR)` on an `Option<String>` with a `&str` and returns it as a `&str`. As written this does not type-check. The model gives it the evident meaning: the value found, or `gray`.
- The rest of the repository is out of scope: process spawning of `ls`/`pwd` in pls-sys, argument parsing in pls-args and src/args, and the program entry point.
