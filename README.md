# gettext catalog core, modelled in Dafny

A model of the core of the Rust `gettext` crate. The crate reads GNU gettext
MO files and answers translation lookups. The model covers four parts.

- **Plural expressions** (`src/plurals.rs`). This covers `index_of`, which finds an operator outside
  parentheses, and the `Ast` of a `Plural-Forms` expression. It also covers
  the expression's value for a count `n` (`Ast::resolve`, `Resolver::resolve`)
  and the recursive-descent parser `Ast::parse` with its chain of
  `parse_*` functions. Panics of the Rust code are explicit results: a
  remainder by zero in `resolve`, and a slice out of order in `parse_parens`
  or `parse_ternary`.
- **Metadata** (`src/metadata.rs`). `parse_metadata` reads the catalog header's `Key: Value`
  lines into a map. It is an imperative loop, proved against a function
  that specifies it. `charset` and `plural_forms` read two of its fields.
- **Catalog** (`src/lib.rs`). The `Catalog` class holds a map of messages. Its
  `insert` method stores a message under `context + "\x04" + id`, or under
  `id` alone. `gettext` returns the first translation or the identifier
  itself.
- **MO header** (`src/parser.rs`). `get_read_u32_fn` picks the byte order from the magic number.
  `parse_catalog` refuses a file shorter than the 28-byte header (`Eof`)
  before one with an unknown magic number (`BadMagic`).

Files:
- `Wrappers.dfy` holds `Option` and `Result`.
- `Errors.dfy` holds the crate's error enum.
- `Text.dfy` holds the parts of Rust's `str` the core uses: `trim` with `char::is_whitespace`, `split`, `find`, `position` and `u64::from_str_radix`.
- `Plurals.dfy`, `PluralSyntax.dfy` and `PluralExamples.dfy` hold the plural engine, the round trip of its parser, and its unit tests.
- `Metadata.dfy` and `MetadataExamples.dfy` hold the metadata.
- `Gettext.dfy` holds the catalog.
- `MoParser.dfy` holds the MO header.

The model follows the code where a reader of the crate's documentation might expect otherwise:
- `parse_metadata` fails with `MalformedMetadata` on a non-empty line without `:`. It does not ignore that line.
- `charset` returns the text between the first `charset=` and the next one, or the end of the field. It is not everything after the first `charset=`, and it is not cut at a `;`. There is no fallback value.
- `plural_forms` reads the count from `n_plurals` (see Findings).

## Model

| member | source | states |
|---|---|---|
| Plurals.ScanStep | src/plurals.rs:19-40 | one step of the `index_of` fold keeps the partial-match count at most the number of characters read; what the fold finds is stated by `IndexOfSound` and `IndexOfChar` |
| Plurals.ScanFrom | src/plurals.rs:16-42 | the fold over a whole text keeps the same bound |
| Plurals.IndexOf | src/plurals.rs:15-43 | a found index leaves room for the whole pattern in `src` |
| Plurals.IndexOfSound | src/plurals.rs:15-43 | a found index is an occurrence of the pattern, and the parentheses are balanced when it ends; an empty pattern is never found |
| Plurals.IndexOfChar | src/plurals.rs:15-43 | for one character other than a parenthesis, `index_of` returns the first top-level occurrence, and `None` exactly when there is none |
| Plurals.Resolve | src/plurals.rs:77-104 | every value fits in 64 bits; a tree without `%` always has a value (never panics) |
| Plurals.ResolveBoolean | src/plurals.rs:89-96 | `==`, `!=`, `>=`, `<=`, `>`, `<`, `&&` and `\|\|` yield 1 when the relation holds between the operand values and 0 otherwise |
| Plurals.ResolveShortCircuit | src/plurals.rs:95-96 | `&&` with a zero left side is 0 and `\|\|` with a non-zero left side is 1, whatever the right side does (even panic) |
| Plurals.ResolveModulo | src/plurals.rs:97 | `%` panics exactly when the right side is 0; otherwise it is the remainder, below the right side |
| Plurals.ResolveNot | src/plurals.rs:99-102 | `!` maps 0 to 1 and everything else to 0 |
| Plurals.ResolveTernary | src/plurals.rs:79-85 | a ternary takes its first branch when the condition is non-zero and its second when it is zero |
| Plurals.ResolveBooleanNode | src/plurals.rs:88-102 | a `!` node or a boolean operator node yields 0 or 1 |
| Plurals.ResolveForm | src/plurals.rs:283-288 | a resolver's form index fits in 64 bits; a host function, or an expression without `%`, always yields one |
| Plurals.ResolveCount | src/plurals.rs:86-87 | `N` resolves to the count and `Integer(x)` to `x` whatever the count; the resolver of the expression `n` selects form `n` (42 for 42, as the test at src/plurals.rs:296-298 checks) |
| Plurals.ParensEnd | src/plurals.rs:112-121 | no contract of its own: the fold's count, 2 plus the characters read while a parenthesis is open (a `(` read with none open counts too); `PluralSyntax.ParensEndWrapped`, `PluralSyntax.ParseOpenHead` and `PluralExamples.AdjacentGroupsUnwrapped` state how `parse_parens` uses it |
| Plurals.Parse | src/plurals.rs:106-108 | no contract of its own: `parse_parens` of the trimmed text; `PluralSyntax.ParsePrint` states the round trip |
| Plurals.ParseParens | src/plurals.rs:110-130 | no contract of its own: a lone `(` panics, a pair whose fold count is the length is dropped, anything else goes to `parse_and`; stated by `PluralSyntax.ParseParenthesized`, `PluralSyntax.ParseOpenHead` and `PluralExamples.AdjacentGroupsUnwrapped` |
| Plurals.Binary | src/plurals.rs:134-138 | no contract of its own: the operator node over the parses of both sides, the left side's error or panic first; used by every split of `PluralSyntax.ChainReaches` |
| Plurals.ParseAnd | src/plurals.rs:132-142 | no contract of its own: split at the first top-level `&&`, else `parse_or`; stated by `PluralSyntax.ChainReaches` |
| Plurals.ParseOr | src/plurals.rs:144-154 | no contract of its own: split at the first top-level `\|\|`, else `parse_ternary`; stated by `PluralSyntax.ChainReaches` and `PluralExamples.ParseDisjunction` |
| Plurals.ParseTernary | src/plurals.rs:156-170 | no contract of its own: stated by `PluralSyntax.TernarySplitAt` and `PluralExamples.ParseMissingColon` |
| Plurals.ParseGe | src/plurals.rs:172-182 | no contract of its own: split at the first top-level `>=`, else `parse_gt`; stated by `PluralSyntax.ChainReaches` |
| Plurals.ParseGt | src/plurals.rs:184-194 | no contract of its own: split at the first top-level `>`, else `parse_le`; stated by `PluralSyntax.ChainReaches` |
| Plurals.ParseLe | src/plurals.rs:196-206 | no contract of its own: split at the first top-level `<=`, else `parse_lt`; stated by `PluralSyntax.ChainReaches` |
| Plurals.ParseLt | src/plurals.rs:208-218 | no contract of its own: split at the first top-level `<`, else `parse_eq`; stated by `PluralSyntax.ChainReaches` |
| Plurals.ParseEq | src/plurals.rs:220-230 | no contract of its own: split at the first top-level `==`, else `parse_neq`; stated by `PluralSyntax.ChainReaches` |
| Plurals.ParseNeq | src/plurals.rs:232-242 | no contract of its own: split at the first top-level `!=`, else `parse_mod`; stated by `PluralSyntax.ChainReaches` |
| Plurals.ParseMod | src/plurals.rs:243-253 | no contract of its own: split at the first top-level `%`, else `parse_not` of the trim; stated by `PluralSyntax.ChainReaches` |
| Plurals.ParseNot | src/plurals.rs:255-261 | no contract of its own: stated by `PluralSyntax.NotSplit` and `PluralSyntax.ParseAtom` |
| Plurals.ParseN | src/plurals.rs:271-277 | a tree `parse_n` yields evaluates to the count for every count; any other outcome is the error `PluralParsing`, never a panic |
| Plurals.ParseInt | src/plurals.rs:263-269 | no contract of its own: stated by `PluralSyntax.ParseAtom` and `PluralExamples.ParseSpacedNumeral` |
| PluralSyntax.ParsePrint | src/plurals.rs:106-277 | every tree, written out with every operand in parentheses, is parsed back as itself |
| PluralSyntax.ParseParenthesized | src/plurals.rs:110-130 | a balanced operand inside one pair of parentheses parses as the operand |
| PluralSyntax.ParseOpenHead | src/plurals.rs:110-130 | a trimmed text that opens with `(` and whose fold count (2 plus the characters read while a parenthesis is open) differs from its length goes to `parse_and` whole |
| PluralExamples.AdjacentGroupsUnwrapped | src/plurals.rs:110-122 | as written, adjacent groups are unwrapped as one: the fold counts all 6 characters of `(n)(n)`, so it is parsed as `n)(n` |
| PluralSyntax.ChainReaches | src/plurals.rs:132-253 | the chain splits at the first operator, in the order `&&`, `\|\|`, `?`, `>=`, `>`, `<=`, `<`, `==`, `!=`, `%`, that occurs at the top level |
| PluralSyntax.ChainOrder | src/plurals.rs:132-253 | no pattern tried before an operator's own is a prefix of that operator's text, so each operator is split under its own name |
| PluralSyntax.TernarySplitAt | src/plurals.rs:156-170 | `parse_ternary` parses the text before `?`, between `?` and `:`, and after `:` |
| PluralSyntax.ParseAtom | src/plurals.rs:255-277 | text without an operator character is a number when `from_str_radix` accepts its trim, `n` when it trims to `n`, and `PluralParsing` otherwise |
| PluralSyntax.NotSplit | src/plurals.rs:255-261 | a text whose first top-level `!` is its first character is the negation of the rest |
| PluralExamples.ParseDisjunction | src/plurals.rs:144-154 | `l \|\| r` is the `Or` node over the parses of `l` and `r`, when `l` and `r` are non-empty, neither holds `&`, `l` has no parenthesis and no `\|` and does not start with whitespace, and `r` does not end in whitespace |
| PluralExamples.ParseGroupTernary | src/plurals.rs:110-170 | for a non-empty balanced operand `x` with no whitespace at either end, and `a`, `b` free of operator characters (`b` not ending in whitespace), `(x) ? a : b` is a ternary whose condition is `x`: the characters after the group are not counted by the fold, so the pair is not dropped |
| PluralExamples.ParseSpacedNumeral | src/plurals.rs:263-269 | a numeral between whitespace is read as its number |
| PluralExamples.ParseSpacedN | src/plurals.rs:271-277 | `n` between whitespace is read as the count variable `N` |
| PluralExamples.ParseEqualN | src/plurals.rs:220-230 | `n == d` for any numeral `d`, with whitespace around it, is the `Equal` node over `N` and the number `d` reads as |
| PluralExamples.ParseAndExample | src/plurals.rs:302-321 | `n == 42 ? n : 6 && n < 7` is the `And` of the ternary and `n < 7` |
| PluralExamples.ParseParenthesizedN | src/plurals.rs:323 | `(n)` is `N` |
| PluralExamples.ParseGroupTernaryExample | src/plurals.rs:325-344 | `(n == 1 \|\| n == 2) ? 0 : 1` is the ternary over the disjunction, 0 and 1 |
| PluralExamples.ParseMissingColon | src/plurals.rs:156-166 | a `?` without a `:` is the error `PluralParsing`, not a panic |
| Text.ParseDecimalString | src/plurals.rs:264 | `from_str_radix` reads every 64-bit number back from its numeral, with or without a `+` |
| Metadata.Charset | src/metadata.rs:12-15 | no contract of its own: stated by `CharsetNone` and `CharsetSome` |
| Metadata.CharsetNone | src/metadata.rs:12-15 | there is no charset exactly when `Content-Type` is missing or holds no `charset=` |
| Metadata.CharsetSome | src/metadata.rs:12-15 | a charset is the text after the first `charset=` of `Content-Type`, up to the end or the next `charset=` |
| Metadata.NameValue | src/metadata.rs:25-28 | a property splits exactly when it holds a `=`, and then at the first one, into the trimmed text before it and the trimmed text after it |
| Metadata.ApplyProperty | src/metadata.rs:24-36 | no contract of its own: one step of the fold; `MetadataExamples.CountProperty` and `MetadataExamples.ExprProperty` state what a property sets |
| Metadata.ApplyProperties | src/metadata.rs:24-37 | no contract of its own: the fold, first property to last; stated by `ApplyPropertiesIsLast` and `PropertiesCommute` |
| Metadata.PluralFormsOf | src/metadata.rs:22-39 | no contract of its own: the fold over the `;` pieces of `Plural-Forms`, or the default; stated by `PluralFormsDefault`, `PluralFormsAreLast` and `PluralExprTrimmed` |
| Metadata.ApplyPropertiesIsLast | src/metadata.rs:24-37 | the fold's count is the last valid count and its expression the last expression set, each falling back to the starting value |
| Metadata.PluralFormsDefault | src/metadata.rs:22-38 | without `Plural-Forms`, or with no `name=value` in it, the forms are `(2, "n!=1")` |
| Metadata.PluralFormsAreLast | src/metadata.rs:22-38 | the count is the last `n_plurals` value that is a decimal number (a bad number keeps the earlier count) and the expression is the last `plural` value; each falls back to the default |
| Metadata.PropertiesCommute | src/metadata.rs:24-37 | two neighbouring properties that do not set the same thing may be swapped |
| Metadata.PluralExprTrimmed | src/metadata.rs:28-31 | the expression has no whitespace at either end |
| Metadata.ReadLines | src/metadata.rs:57-63 | no contract of its own: the loop's lines, read first to last; stated by `MetadataFails` and `MetadataValues` |
| Metadata.MetadataOf | src/metadata.rs:55-65 | no contract of its own: the function the loop `ParseMetadata` is proved equal to; stated by `MetadataFails`, `MetadataValues` and `MetadataOfEmpty` |
| Metadata.ParseMetadata | src/metadata.rs:55-65 | the loop that updates the map in place yields exactly `MetadataOf(blob)` |
| Metadata.MetadataFails | src/metadata.rs:55-65 | reading fails, with `MalformedMetadata`, exactly when some non-empty line has no `:` |
| Metadata.MetadataValues | src/metadata.rs:55-65 | a name is in the map exactly when some line names it, with the trimmed value of the last such line |
| Metadata.MetadataOfEmpty | src/metadata.rs:55-65 | an empty header is an empty map |
| MetadataExamples.CharsetMissing | src/metadata.rs:70-75 | no, an empty and an `abc` `Content-Type` give no charset |
| MetadataExamples.CharsetExample | src/metadata.rs:76-77 | `text/plain; charset=utf-42` gives `utf-42` |
| MetadataExamples.PluralFormsMissing | src/metadata.rs:84-88 | a missing or empty `Plural-Forms` gives `(2, "n!=1")` |
| MetadataExamples.CountProperty | src/metadata.rs:29-30 | a property whose name trims to the count name and whose value trims to a numeral sets that count and no expression |
| MetadataExamples.ExprProperty | src/metadata.rs:29-31 | a property whose name trims to `plural` sets its trimmed value as the expression |
| MetadataExamples.PluralFormsOfCount | src/metadata.rs:89-91 | a field whose one property sets the count gives that count and `n!=1` |
| MetadataExamples.PluralFormsOfPair | src/metadata.rs:92-100 | a count property and a `plural` property give that count and expression, in either order |
| MetadataExamples.GnuCountIgnored | src/metadata.rs:30 | as written, `nplurals=<x>` leaves the count at 2 |
| MetadataExamples.GnuPluralFormsRead | src/metadata.rs:22-38 | reading the count from `nplurals`, a GNU header gives its declared count and expression in either order |
| Gettext.KeyOf | src/lib.rs:26-29 | the key is the identifier alone without a context, and otherwise the context, `\x04`, then the identifier |
| Gettext.KeysDistinct | src/lib.rs:26-29 | when neither the contexts nor the identifiers hold `\x04`, two messages share a key exactly when context and identifier agree |
| Gettext.Catalog.constructor | src/lib.rs:21-23 | a new catalog is empty |
| Gettext.Catalog.Insert | src/lib.rs:25-31 | the message is stored under its key, replacing what was there, and nothing else changes |
| Gettext.Catalog.Gettext | src/lib.rs:35-37 | the first translation (what `Message::singular`, src/lib.rs:62-64, gives) of the message stored under the identifier, or the identifier when there is no such message or it has no translation; `InsertedFound`, `InsertKeepsOthers` and `ContextualHidden` tie it to `Insert` |
| Gettext.InsertedFound | src/lib.rs:25-37 | after inserting a message without context, `gettext` of its identifier is its first translation, or the identifier if it has none |
| Gettext.InsertKeepsOthers | src/lib.rs:25-37 | inserting leaves `gettext` of every other key unchanged |
| Gettext.ContextualHidden | src/lib.rs:25-37 | a message with a context is not found by `gettext` of its bare identifier |
| Gettext.EmptyTranslatesNothing | src/lib.rs:21-37 | an empty catalog returns every identifier unchanged |
| Gettext.CatalogInsertExample | src/lib.rs:67-75 | the keys after the two insertions are `context\x04anotherid` and `thisisid` |
| Gettext.CatalogGettextExample | src/lib.rs:77-83 | `Text` is translated to `Tekstas`; `Image` comes back as `Image` |
| MoParser.ReadU32 | src/parser.rs:50-53 | a word read from four bytes is below 2^32 |
| MoParser.ReadWrite | src/parser.rs:50-53 | reading the bytes written for a word gives the word, in either byte order |
| MoParser.WriteRead | src/parser.rs:50-53 | writing the word read from four bytes gives the bytes, in either byte order |
| MoParser.GetReadU32Fn | src/parser.rs:49-57 | little endian exactly for `de 12 04 95`, big endian exactly for `95 04 12 de`, nothing for any other bytes or length |
| MoParser.MagicReadsBack | src/parser.rs:49-57 | four bytes announce a byte order exactly when some byte order reads them as 0x950412de, and the announced one does |
| MoParser.GetReadU32FnExamples | src/parser.rs:72-96 | no bytes and five bytes give nothing; the two magic numbers give little and big endian |
| MoParser.ParseOutcome | src/parser.rs:59-68 | `Eof` exactly for fewer than 28 bytes; otherwise `BadMagic` exactly when the first four bytes are neither magic number; an accepted file's first word reads as the magic number |
| MoParser.ParseCatalog | src/parser.rs:59-70 | fails with the error `ParseOutcome` names, and otherwise returns a new, empty catalog |
| MoParser.ParseOutcomeExamples | src/parser.rs:98-136 | 27 bytes are `Eof`; 28 bytes with `01 02 03 04` are `BadMagic`; 28 bytes after either magic number are accepted |

## Left out

- Reading the file is left out. `parse_catalog` is modelled on the bytes `read_to_end` would return, so the I/O error variant `Io` and the `From<io::Error>` conversion are not modelled.
- `parse_catalog` at this revision reads nothing past the magic number. The model returns the same empty catalog.
- `ReadU32`: byteorder's `read_u32` is not part of this model. It is modelled from its meaning: the first four bytes in the given order. It requires four bytes, because that function panics with fewer.
- The error enums' `description`/`Display` text is left out. So are `src/parse_options.rs`, `Deref`/`DerefMut` on `MetadataMap` (a map value here) and the `Into<String>` conversions of `Message::new` (the datatype constructor).
- `Resolver::Function` holds a host function. It is modelled as a total function on 64-bit counts, because a function pointer's code cannot be seen.
- `usize` is taken to be 64 bits wide. So `n as usize` and `x as usize` in `resolve` change nothing, and no arithmetic in `resolve` can overflow.
- The Russian plural expression of `test_parser` (src/plurals.rs:346-347) is not stated as a lemma. `PluralSyntax.ParsePrint` covers fully parenthesised expressions, and three other inputs of that test are proved concretely.
- `Plurals.IndexOfChar`: the "first top-level occurrence" reading is proved only for one-character patterns. The fold of `index_of` restarts a broken partial match without re-checking the current character, so for two-character patterns it is the fold itself (`Plurals.IndexOf`) that the model states. `IndexOfSound` gives its soundness.
- The four `plural_forms` strings of `test_metadatamap_plural` (src/metadata.rs:89-100) are not stated as concrete lemmas, because of their cost. `MetadataExamples.PluralFormsOfCount` and `MetadataExamples.PluralFormsOfPair` prove them for every property that sets the count or the expression.
- Strings are sequences of characters, and positions are character positions. Rust mixes character and byte positions in three places. The model is exact for them only on ASCII text:
  - `parse_metadata` finds the `:` by byte (src/metadata.rs:58). `:` is ASCII, so this part is exact for all text.
  - `plural_forms` takes a character position from `chars().position` and passes it to `split_at`, which takes a byte position (src/metadata.rs:25-27).
  - The parser slices by the character position that `index_of` returns and skips `pat.len()` bytes (src/plurals.rs:136 and the other slices). On non-ASCII text Rust would cut elsewhere or panic.

## Findings

| source | as written | input that shows it | evidently intended | confidence | as-written member | corrected member |
|---|---|---|---|---|---|---|
| src/metadata.rs:30 | `plural_forms` reads the count from a property named `n_plurals` | a GNU header `Plural-Forms: nplurals=3; plural=...`: the count stays 2 | read the count from `nplurals`, the name GNU gettext writes (the crate's own tests use `n_plurals`, so they agree with the code) | medium; not executed | MetadataExamples.GnuCountIgnored | MetadataExamples.GnuPluralFormsRead |
