# Drizzle schema conversion, PostgreSQL to SQLite — a Dafny model

The script `scripts/convert-schema-to-sqlite.py` rewrites a Drizzle ORM schema
written for PostgreSQL into one for SQLite. It reads the whole schema as one
string and applies twelve `re.sub` rewrites in a fixed order:

1. the `pg-core` import becomes the `sqlite-core` import;
2. `pgTable` becomes `sqliteTable`;
3. `pgEnum` declarations are deleted;
4. `varchar(`, `jsonb(`, `decimal(` and `date(` get SQLite types, and
   `timestamp("c")` becomes an integer column in timestamp mode;
5. uses of enum columns become `text` columns;
6. the UUID default gets a `randomblob` form, and `.defaultNow()` is deleted;
7. timestamp defaults are rewritten.

Step 8 then inserts a fixed comment block after the line of the `zod` import.
The command line maps the argument list to an input path and an output path.

The model has seven modules:

- `Text` (`text.dfy`): ASCII word characters and word boundaries. It also
  defines `str.find` (`Find`), `str.replace` (`ReplaceAll`) and `str.count`
  (`CountAll`).
- `Patterns` (`patterns.dfy`): each fixed pattern hand-coded as a match
  attempt at one position. An attempt returns the text it consumes and the
  text that replaces it, as Python's `re` engine does when it tries that
  pattern there.
- `ReSub` (`resub.dfy`): `re.sub` as one left-to-right scan over any such
  attempt. The leftmost match wins and matches never overlap. The scan
  resumes after each match, and replacement text is never scanned again.
- `PatternFacts` (`pattern_facts.dfy`): for each pattern, what it matches and
  what it does not.
- `Rules` (`rules.dfy`): the twelve rules and what each does to a whole text.
- `ConvertSchema` (`convert.dfy`): the pipeline and the comment insertion.
  `Convert` uses the corrected templates of steps 4 and 7, and
  `WrittenConvert` uses the templates as the script writes them.
- `Cli` (`cli.dfy`): the argument defaulting.

Two behaviours of the code are easy to misread; the model follows the code:

- An enum declaration may span several lines, because `[^)]+` also matches
  newlines.
- A single argument without a `.ts` anywhere gives an output path equal to
  the input path. With several `.ts`, every one of them is replaced.

## Model

| member | source | states |
|---|---|---|
| Text.FindSpec | scripts/convert-schema-to-sqlite.py:91-93 | `str.find` returns the first occurrence at or after the start, and returns -1 exactly when there is none |
| Text.ReplaceAllLength | scripts/convert-schema-to-sqlite.py:113 | `str.replace` changes the length by the difference of the two lengths for each non-overlapping occurrence, counted from the left |
| ReSub.FirstMatch | scripts/convert-schema-to-sqlite.py:22 | `re.sub`: the text before the leftmost match is copied, the match is replaced, and scanning resumes right after the matched text |
| ReSub.NoMatchUnchanged | scripts/convert-schema-to-sqlite.py:58 | `re.sub` returns a text unchanged when the pattern matches nowhere in it |
| ReSub.SelfReplacingUnchanged | scripts/convert-schema-to-sqlite.py:65-69 | a substitution that replaces every match by the very text it matched leaves the text unchanged |
| ReSub.LiteralIsReplaceAll | scripts/convert-schema-to-sqlite.py:15-19 | `re.sub` with a pattern free of metacharacters is `str.replace`: leftmost, non-overlapping occurrences, none inside inserted text |
| Rules.ImportRewrite | scripts/convert-schema-to-sqlite.py:15-19 | every `from "drizzle-orm/pg-core"` becomes the `sqlite-core` import, none survives the step, and a text without one is unchanged |
| PatternFacts.WordMatch | scripts/convert-schema-to-sqlite.py:22 | a `\b`-guarded name matches exactly where it occurs with a non-word character or a text edge on each guarded side |
| Rules.TableRuleAt | scripts/convert-schema-to-sqlite.py:22 | `pgTable` is rewritten to `sqliteTable` at a position exactly when both neighbours are non-word characters or text edges |
| Rules.TypeRuleAt | scripts/convert-schema-to-sqlite.py:34-53 | `varchar(`, `jsonb(`, `decimal(` and `date(` are rewritten at a position exactly when the character before is non-word or the text starts there |
| Rules.EmbeddedWordKept | scripts/convert-schema-to-sqlite.py:22 | a table or type name glued to a word character before it, as in `myvarchar(`, is never rewritten |
| PatternFacts.EnumDeclarationMatches | scripts/convert-schema-to-sqlite.py:26-30 | `export const <name>Enum = pgEnum(<args>)` is deleted in full, with its optional `;` and its newline, when the name has a word character before `Enum` and the arguments are non-empty and free of `)`, even across lines |
| PatternFacts.EnumDeclarationShape | scripts/convert-schema-to-sqlite.py:26-30 | whatever step 3 deletes is such a declaration: arguments free of `)`, then `)`, an optional `;` and a newline |
| PatternFacts.EnumDeclarationEnd | scripts/convert-schema-to-sqlite.py:27 | every deleted declaration ends with `)` followed by `\n` or by `;\n` |
| Rules.UnterminatedTailKept | scripts/convert-schema-to-sqlite.py:26-30 | a last line without a newline survives step 3 unchanged, even when it holds a declaration |
| PatternFacts.TimestampColumnMatches | scripts/convert-schema-to-sqlite.py:37-41 | `timestamp("c")` with `c` non-empty and free of `"` is matched whatever precedes it, and `c` is copied verbatim into the `integer` call |
| PatternFacts.TimestampColumnShape | scripts/convert-schema-to-sqlite.py:38 | whatever the timestamp pattern matches is a one-argument call `timestamp("c")` with such a `c` |
| Rules.TimestampWithOptionsUnmatched | scripts/convert-schema-to-sqlite.py:38 | a `timestamp("c", ...)` call with further arguments is not matched |
| Rules.TimestampCallRewrite | scripts/convert-schema-to-sqlite.py:37-41 | step 4 turns a whole `timestamp("c")` into `integer("c", <mode>)` |
| Rules.TimestampColumnRewrite | scripts/convert-schema-to-sqlite.py:37-41 | corrected step 4: `timestamp("c")` becomes `integer("c", { mode: 'timestamp' })` |
| Rules.TimestampColumnClean | scripts/convert-schema-to-sqlite.py:39 | corrected step 4 adds no backslash: its output has one exactly when the column name has one |
| Rules.WrittenTimestampEscapes | scripts/convert-schema-to-sqlite.py:39 | step 4 as written outputs `{ mode: \'timestamp\' }`, with backslashes, for every column |
| PatternFacts.EnumColumnMatches | scripts/convert-schema-to-sqlite.py:57-58 | `<name>Enum("c")` is replaced in full by `text("c")` when the name has a word character before `Enum`; `c` is kept |
| PatternFacts.EnumColumnShape | scripts/convert-schema-to-sqlite.py:57-58 | whatever step 5 matches is such a call, with a column free of `"` |
| Rules.UuidRewrite | scripts/convert-schema-to-sqlite.py:61 | every `gen_random_uuid()` default becomes the `randomblob(16)` default, none is left, and a text without one is unchanged |
| Rules.DefaultNowRemoval | scripts/convert-schema-to-sqlite.py:62 | every non-overlapping `.defaultNow()` of the step's input is deleted, which shortens the text by 13 characters each |
| PatternFacts.TimestampDefaultMatches | scripts/convert-schema-to-sqlite.py:65-69 | `integer("c", { mode: 'timestamp' }).default` is matched, and its option object is replaced by the template's |
| PatternFacts.TimestampDefaultShape | scripts/convert-schema-to-sqlite.py:66 | whatever step 7 matches is such a prefix |
| Rules.TimestampDefaultIdentity | scripts/convert-schema-to-sqlite.py:65-69 | corrected step 7 is the identity on every text |
| Rules.WrittenTimestampDefaultChanges | scripts/convert-schema-to-sqlite.py:67 | step 7 as written changes every timestamp default already in SQLite form by putting backslashes into it |
| ConvertSchema.ApplyAllInert | scripts/convert-schema-to-sqlite.py:14-69 | a text that no rule matches passes through all the rules unchanged |
| ConvertSchema.ApplyAllSplit | scripts/convert-schema-to-sqlite.py:14-69 | the rules run in order, each on the whole output of the one before, so a run of rules splits into two runs at any point |
| ConvertSchema.ApplyAllAgree | scripts/convert-schema-to-sqlite.py:14-69 | two rule lists give the same output when, at every step, they hold the same rule or both rules match nowhere in the text that step receives |
| ConvertSchema.PipelinesAgree | scripts/convert-schema-to-sqlite.py:37-69 | when no `timestamp("c")` call reaches step 4 and no timestamp default reaches step 7, steps 1 to 7 as written and corrected give the same output |
| ConvertSchema.ConvertsAgree | scripts/convert-schema-to-sqlite.py:14-94 | under the same conditions the whole conversion as written and the corrected one give the same output, comment included |
| ConvertSchema.NeedsParen | scripts/convert-schema-to-sqlite.py:26-67 | every rule from step 3 on, corrected or as written, matches only in a text that holds a `(` |
| ConvertSchema.RewriteQuietText | scripts/convert-schema-to-sqlite.py:14-69 | a text with no `(`, no `pg-core` import and no `pgTable` comes out of steps 1 to 7 unchanged, corrected or as written |
| ConvertSchema.InsertAfterLine | scripts/convert-schema-to-sqlite.py:90-94 | without the anchor the text is unchanged; with it, the text grows by exactly the inserted block |
| ConvertSchema.Placement | scripts/convert-schema-to-sqlite.py:91-94 | the block goes right after the first newline following the first anchor, past the whole anchor, or at position 0 when no newline follows; the text on both sides is kept |
| ConvertSchema.CommentPlacement | scripts/convert-schema-to-sqlite.py:71-94 | the comment block lands after the line of the first `zod` import, or at position 0, with the text around it kept |
| ConvertSchema.ConvertQuietText | scripts/convert-schema-to-sqlite.py:14-94 | a text that no rule touches and that has no `zod` import is converted to itself, by the corrected conversion and by the one as written |
| Cli.ResolvePaths | scripts/convert-schema-to-sqlite.py:107-113 | with fewer than two entries the default paths are used; with three or more, entries 1 and 2 are used and the rest ignored; with exactly two, the output is derived from the input |
| Cli.NoExtensionSamePath | scripts/convert-schema-to-sqlite.py:113 | a single input path without `.ts` gives an output path equal to the input path |
| Cli.DerivedOutputLength | scripts/convert-schema-to-sqlite.py:113 | each `.ts` of the input lengthens the derived output by the seven characters of `-sqlite` |
| Cli.DerivedOutputOfTsPath | scripts/convert-schema-to-sqlite.py:113 | a path whose only `.ts` is at its end gets `-sqlite` inserted before that extension |
| Cli.DefaultsAgree | scripts/convert-schema-to-sqlite.py:109-110 | the default output path is the one the single-argument rule would derive from the default input path |

## Left out

- ConvertSchema.Convert: is the corrected conversion, with the templates of
  steps 4 and 7 fixed as under "## Findings". The script as written is
  `ConvertSchema.WrittenConvert`. The two share every lemma of the "## Model"
  table that names both, and `ConvertSchema.ConvertsAgree` says when their
  outputs agree.
- Reading the input file and writing the output file (lines 11-12 and
  96-97) are left out. So are the console messages (lines 99-105). The model
  is a function from string to string.
- The argument list is a parameter. Reading `sys.argv` and running under
  `__main__` are left out.
- Word characters are ASCII letters, digits and `_`. Python 3 `str` patterns
  also treat other Unicode letters and digits as word characters. This changes
  `\b` and `\w` only for non-ASCII text.
- There is no general regex engine. Each of the twelve fixed patterns is
  hand-coded as a match attempt, including the backtracking of `\w+Enum`,
  `[^)]+` and `[^"]+`.
- The comment block of step 8 is an exact constant. Whether what it says is
  accurate is not modelled.
- The model makes no claim that the output is a valid SQLite or Drizzle
  schema.
- The model states no idempotence property, because the script does not
  have one. Deleting `.defaultNow()` can join the text around it into a new
  match for an earlier rule. Also, the comment is inserted again on every run
  while the `zod` import stays.

## Findings

| source | as written | input that shows it | evidently intended | confidence | as-written member | corrected member |
|---|---|---|---|---|---|---|
| scripts/convert-schema-to-sqlite.py:39 | The raw replacement template escapes the quotes as `\'`. The template expansion of `re.sub` keeps a backslash before punctuation. So the output carries `\'timestamp\'` | `timestamp("created_at")` becomes `integer("created_at", { mode: \'timestamp\' })` | `integer("created_at", { mode: 'timestamp' })` | not executed | Rules.WrittenTimestampEscapes | Rules.TimestampColumnRewrite |
| scripts/convert-schema-to-sqlite.py:67 | The same `\'` escape in step 7's template. The step that should leave timestamp defaults alone rewrites each one | `integer("created_at", { mode: 'timestamp' }).default` gains backslashes around `timestamp` | the text unchanged: step 7 is the identity | not executed | Rules.WrittenTimestampDefaultChanges | Rules.TimestampDefaultIdentity |

The corrected pipeline (`ConvertSchema.Rewrite`, `ConvertSchema.Convert`)
uses the rules `Rules.TimestampRule` and `Rules.TimestampDefaultRule`. The
pipeline as written (`ConvertSchema.WrittenRewrite`,
`ConvertSchema.WrittenConvert`) uses `Rules.WrittenRules`, which holds
`Rules.WrittenTimestampRule` and `Rules.WrittenTimestampDefaultRule` in their
place.
