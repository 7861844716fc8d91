# Null-guard narrowing and inline suppression, modelled in Dafny

Two helpers of the Ultimate Bug Scanner are modelled and proved here.

**The null-guard narrowing checker** (`modules/helpers/type_narrowing_ts.js`) reads
a TypeScript syntax tree and looks at each block's statements. It reports an issue
when all of these hold:

- an `if` tests a variable for `null`/`undefined` (`x == null`, `x === undefined`,
  `typeof x === 'undefined'`, `!x`, with the identifier on either side);
- the `if` has no `else`;
- its then-branch can fall through;
- a later statement in the block dereferences the variable (`x.p`, `x[i]`, `x(...)`)
  before any statement redefines it.

The issue is placed at that dereference. The checker also turns a character offset
into a 1-based line and column.

**The inline-suppression filter** (`modules/helpers/filter_suppressions.py`) reads
the scanner's output line by line. A line that, once its ANSI escapes are stripped,
starts with a finding `path:line[:col]` is dropped when either of these carries one
of the markers `ubs:ignore`, `ubs: disable`, `nolint` or `noqa`, in any case:

- the referenced line of that file;
- the line just before it.

Every other line is written unchanged, in its original order. That includes a
finding whose line number `int` rejects for having more than 4300 digits. Each file is
read at most once.

Modules:

- `Wrappers` (`wrappers.dfy`): `Option`.
- `TsAst` (`ts_ast.dfy`): the node kinds the checker tests, as one `Node` datatype.
  It also gives the child order of `forEachChild`, over the slots it models, and a
  pre-order listing of a tree.
- `TypeNarrowing` (`type_narrowing.dfy`): the checker. It has:
  - `getLineAndColumn`, `findUsageInNode`, `findUsage` and `analyzeBlock` as methods
    with loops, each proved against a specification function;
  - the guard and exit analyses as functions;
  - the caller's `issues` array as the class `IssueList`. An issue holds the guarded
    name, from which `Issue.Message` spells out the message text.
- `SuppressionFilter` (`filter_suppressions.dfy`): the filter. It has:
  - the ANSI stripper, the finding pattern and the marker test as functions;
  - the loop of `main`, with its file cache, as the method `FilterStream`.

## Model

| member | source | states |
|---|---|---|
| TypeNarrowing.GetLineAndColumn | modules/helpers/type_narrowing_ts.js:51-63 | the line is 1 plus the number of newlines among the first `min(pos, length)` characters; the column is 1 plus the length of the text after the last of them; an offset past the end behaves as the end, a negative one as 0 |
| TypeNarrowing.NewlineCountIsMultiplicity | modules/helpers/type_narrowing_ts.js:54-58 | the newlines the loop counts are exactly the occurrences of `'\n'` in the scanned prefix |
| TypeNarrowing.LastLineIsNewlineFreeSuffix | modules/helpers/type_narrowing_ts.js:54-61 | the column counts the suffix after the last newline: that suffix holds no newline, and the character before it, if any, is a newline |
| TypeNarrowing.IsNullish | modules/helpers/type_narrowing_ts.js:109-114 | the `null` and `undefined` keywords are nullish; they denote nothing, and the identifier `undefined` is not one of them |
| TypeNarrowing.IsUndefinedIdentifier | modules/helpers/type_narrowing_ts.js:116-118 | the identifier `undefined` denotes nothing and is not a keyword; with `IsNullish` it covers every node that denotes nothing |
| TypeNarrowing.IdentifierFromTypeOf | modules/helpers/type_narrowing_ts.js:120-125 | `typeof x` gives the name `x` exactly when its operand is a bare identifier |
| TypeNarrowing.ComparisonGuard | modules/helpers/type_narrowing_ts.js:73-98 | the six shapes tried in order give `x` exactly when one side is the non-empty name `x` and the other denotes nothing, or one side is `typeof x` and the other the string `'undefined'` |
| TypeNarrowing.ExtractGuardedIdentifier | modules/helpers/type_narrowing_ts.js:65-125 | it returns `x` exactly when the expression is `x ==`/`=== null`/`undefined` with `x` on either side, `typeof x ==`/`=== 'undefined'` on either side, with `x` a non-empty name in each comparison, or `!x`, whose name is returned as it is, even when it is empty; it returns nothing for every other expression, including `!=`/`!==` and `!` on a non-identifier |
| TypeNarrowing.StatementRedefines | modules/helpers/type_narrowing_ts.js:145-157 | only a variable statement holding a declaration of the identifier `name`, or an expression statement `name = ...` with a plain `=`, redefines `name` |
| TypeNarrowing.RedefinitionShapes | modules/helpers/type_narrowing_ts.js:145-157 | `name = e` and a declaration list that declares `name` (after any other declarations) redefine `name`; `name += e` and other compound assignments do not, nor does an assignment to, or a declaration of, another name |
| TypeNarrowing.BlockHasExit | modules/helpers/type_narrowing_ts.js:127-143 | only `return`, `throw`, `break`, `continue`, a block, or an `if` with an `else` can have an exit; an `if` without `else`, an expression statement or a declaration never has one |
| TypeNarrowing.BlockHasExitIffNoFallThrough | modules/helpers/type_narrowing_ts.js:127-143 | a node "has an exit" exactly when none of its completions falls through: return, throw, break and continue never fall through; a block has an exit exactly when one of its statements does; an `if` has one only when it has an `else` and both branches have one |
| TypeNarrowing.SequenceHasExitIffNoFallThrough | modules/helpers/type_narrowing_ts.js:131-132 | a statement list falls through exactly when none of its statements has an exit |
| TypeNarrowing.IsUsageSite | modules/helpers/type_narrowing_ts.js:164-175 | a usage site `name.p`, `name[i]` or `name(...)` has the bare identifier `name` as the first child the walk would visit |
| TypeNarrowing.FirstUsage | modules/helpers/type_narrowing_ts.js:164-175 | what the search finds is always the bare identifier `name` itself, never the enclosing access or call |
| TypeNarrowing.FirstUsageNone | modules/helpers/type_narrowing_ts.js:162-175 | the search finds nothing exactly when no node in the list dereferences the bare identifier `name` |
| TypeNarrowing.FirstUsageIsFirstSite | modules/helpers/type_narrowing_ts.js:162-177 | what it finds is the identifier of the first dereference of `name` in the list, with none before it |
| TypeNarrowing.FirstUsageAppend | modules/helpers/type_narrowing_ts.js:163-176 | once a site is found, later nodes do not change the result; otherwise the search goes on in them |
| TypeNarrowing.Walk | modules/helpers/type_narrowing_ts.js:162-177 | the walk keeps an earlier `found`; otherwise it sets `found` to the first dereference of `name` in the pre-order of the tree, stopping at a dereference without entering it |
| TypeNarrowing.FindUsageInNode | modules/helpers/type_narrowing_ts.js:159-180 | the result is the identifier of the pre-order-first dereference of `name` in the node, or nothing when there is none |
| TypeNarrowing.UsageAfter | modules/helpers/type_narrowing_ts.js:182-192 | what it finds is an identifier named `name` |
| TypeNarrowing.FindUsage | modules/helpers/type_narrowing_ts.js:182-192 | the loop with early returns computes `UsageAfter`: statements are scanned in order, a redefinition stops the scan with nothing, and the first statement holding a dereference gives the result |
| TypeNarrowing.UsageAfterFindsFirst | modules/helpers/type_narrowing_ts.js:184-190 | when statement `k` holds a dereference, nothing before it redefines or dereferences `name`, and `k` does not redefine it, the result is `k`'s first dereference |
| TypeNarrowing.UsageAfterHasFirst | modules/helpers/type_narrowing_ts.js:184-190 | a result always comes from such a first statement `k` |
| TypeNarrowing.UsageAfterSpec | modules/helpers/type_narrowing_ts.js:182-192 | the result is `u` exactly when some statement `k` is the first to dereference `name`, nothing before or at `k` redefines it, and `u` is `k`'s first dereference |
| TypeNarrowing.UsageAfterNone | modules/helpers/type_narrowing_ts.js:182-192 | nothing is found exactly when every dereference of `name` comes at or after a redefinition, including one in the redefining statement itself |
| TypeNarrowing.IssueAt | modules/helpers/type_narrowing_ts.js:198-207 | only an `if` without an `else` can give an issue |
| TypeNarrowing.IssuesUpTo | modules/helpers/type_narrowing_ts.js:196-209 | at most one issue per statement scanned |
| TypeNarrowing.IssueList.constructor | modules/helpers/type_narrowing_ts.js:216 | the list of issues starts empty |
| TypeNarrowing.Issue.Message | modules/helpers/type_narrowing_ts.js:204 | the message is `Value '`, the guarded name, `'` and the fixed rest of the sentence |
| TypeNarrowing.MessageIdentifiesGuard | modules/helpers/type_narrowing_ts.js:204 | two issues with the same message guard the same variable |
| TypeNarrowing.AnalyzeBlock | modules/helpers/type_narrowing_ts.js:194-210 | the issues list becomes the old list followed by the issue of each statement of the block, in statement order; existing entries are unchanged |
| TypeNarrowing.CheckStatement | modules/helpers/type_narrowing_ts.js:198-207 | the check the loop makes at one statement gives exactly that statement's issue, if any |
| TypeNarrowing.IssueAtSound | modules/helpers/type_narrowing_ts.js:199-206 | an issue at statement `i` comes from an else-less `if` guarding `g`, whose then-branch can fall through, followed by a statement `k` that is the first after the guard to dereference `g` with no redefinition from the guard up to it; the issue sits at the start of that dereference's identifier and names `g` |
| TypeNarrowing.IssueAtComplete | modules/helpers/type_narrowing_ts.js:199-206 | every such unsafe guard gives an issue |
| TypeNarrowing.IssuesInStatementOrder | modules/helpers/type_narrowing_ts.js:196-209 | the issues are those of the unsafe guards, one each, in increasing statement order, and none is missed |
| SuppressionFilter.RunLengthMaximal | modules/helpers/filter_suppressions.py:14 | a greedy run of a character class: every character in it is in the class, and the character after it, if any, is not |
| SuppressionFilter.RunLengthExact | modules/helpers/filter_suppressions.py:14 | conversely, a stretch of class characters not followed by another one is exactly the greedy run |
| SuppressionFilter.AnsiMatchLength | modules/helpers/filter_suppressions.py:13 | a match of the escape pattern starts with ESC and is at least two characters long |
| SuppressionFilter.ColourParametersSurvive | modules/helpers/filter_suppressions.py:13 | with no `\[` in the pattern, a colour sequence `ESC [ 3 1 m` loses only `ESC [`: its parameters `31m` stay in the line |
| SuppressionFilter.StripAnsi | modules/helpers/filter_suppressions.py:13-18 | stripping never lengthens a line, and a line without ESC is returned unchanged |
| SuppressionFilter.ParseFinding | modules/helpers/filter_suppressions.py:14 | a parsed path is never empty and never holds a colon |
| SuppressionFilter.PlainFindingParses | modules/helpers/filter_suppressions.py:14 | a line `path:digits` with a non-empty path of path characters and non-empty digits parses to that path and those digits |
| SuppressionFilter.ColouredFindingPath | modules/helpers/filter_suppressions.py:32-34 | a finding coloured with `ESC [ 3 1 m` parses, once stripped, with the path `31m` followed by its own path, so its own file is never looked up |
| SuppressionFilter.LineNumber | modules/helpers/filter_suppressions.py:41-45 | `int` of the digit group fails, with `ValueError`, exactly when it has more than 4300 digits; otherwise it is the digits' decimal value |
| SuppressionFilter.DecimalValueLeadingZeros | modules/helpers/filter_suppressions.py:42 | leading zeros do not change the value of the digits, though they count toward the limit |
| SuppressionFilter.ParseFindingSound | modules/helpers/filter_suppressions.py:14 | a parsed finding comes from a line that starts with any amount of whitespace, a non-empty path of characters that are neither `:` nor whitespace, a colon and a non-empty run of digits not followed by another digit; the groups are that path and those digits |
| SuppressionFilter.ParseFindingComplete | modules/helpers/filter_suppressions.py:14 | every line of that shape, however its pieces are placed, parses to that path and those digits |
| SuppressionFilter.ParseFindingSpec | modules/helpers/filter_suppressions.py:34 | the parse gives `(path, digits)` exactly when the line has that shape; any other line is not a finding |
| SuppressionFilter.Lower | modules/helpers/filter_suppressions.py:22 | lower-casing keeps the length and maps each character on its own |
| SuppressionFilter.Contains | modules/helpers/filter_suppressions.py:23 | a needle is only found in a text at least as long as it |
| SuppressionFilter.ContainsSpec | modules/helpers/filter_suppressions.py:23 | substring search holds exactly when the needle occurs at some offset |
| SuppressionFilter.HasSuppression | modules/helpers/filter_suppressions.py:20-23 | a line shorter than the shortest marker, four characters, never carries a suppression |
| SuppressionFilter.HasSuppressionSpec | modules/helpers/filter_suppressions.py:20-23 | a line carries a suppression exactly when some marker occurs in its lower-cased form; an empty line never does |
| SuppressionFilter.SuppressionIgnoresCase | modules/helpers/filter_suppressions.py:20-23 | upper-casing a line does not change whether it carries a suppression |
| SuppressionFilter.Suppressed | modules/helpers/filter_suppressions.py:58-66 | a finding in a file that cannot be read, or that is empty, is never suppressed |
| SuppressionFilter.SuppressionReach | modules/helpers/filter_suppressions.py:58-66 | a finding at line `n` is suppressed exactly when a marker sits on the line at index `n - 1` or `n - 2` of the file; out-of-range and negative indices are never read |
| SuppressionFilter.Keeps | modules/helpers/filter_suppressions.py:33-38 | a line that is not a finding, once its escapes are stripped, is always written |
| SuppressionFilter.OverlongLineNumberKept | modules/helpers/filter_suppressions.py:41-45 | a finding whose line number has more than 4300 digits is written, whatever its file holds, and its file is not looked up |
| SuppressionFilter.LeadingZerosPassThrough | modules/helpers/filter_suppressions.py:41-45 | `path:` followed by 4300 zeros and a `1` names line 1, yet is written even when line 1 of `path` carries a marker |
| SuppressionFilter.Select | modules/helpers/filter_suppressions.py:32-68 | the output of the line-by-line filter is never longer than its input |
| SuppressionFilter.SelectAppend | modules/helpers/filter_suppressions.py:32-68 | the filter works line by line: filtering two pieces gives the filtered whole, so the order of the input is kept |
| SuppressionFilter.SelectCounts | modules/helpers/filter_suppressions.py:32-68 | each kept line comes out verbatim as often as it goes in, and a dropped line never comes out |
| SuppressionFilter.SelectMembers | modules/helpers/filter_suppressions.py:32-68 | a line is in the output exactly when it is in the input and is kept |
| SuppressionFilter.SelectAll | modules/helpers/filter_suppressions.py:32-68 | when every line is kept, the output is the input |
| SuppressionFilter.UnsuppressibleStreamPassesThrough | modules/helpers/filter_suppressions.py:36-68 | a stream whose lines are not findings, or are findings in unreadable or empty files, comes out unchanged |
| SuppressionFilter.FilterStream | modules/helpers/filter_suppressions.py:25-68 | the loop writes exactly the input lines that `Keeps` keeps, in order; the cache reads a file only on a miss, so the number of reads equals the number of distinct paths among the findings whose line number `int` accepts |

## Left out

- Reading files and directories, the command line, printing and the JSON report of
  the narrowing checker (`collectFiles`, `main`, `analyzeWithTypescript`,
  `modules/helpers/type_narrowing_ts.js:15-36, 212-233, 270-293`). The TypeScript
  parser is a foreign library, so a syntax tree is the checker's input here.
- `formatLocation` (`modules/helpers/type_narrowing_ts.js:38-49`): its `lineStarts`
  loop computes a value nothing uses, and the location text is output formatting.
- `fallbackAnalyze` (`modules/helpers/type_narrowing_ts.js:235-268`): a heuristic over
  JavaScript regular expressions, used only when TypeScript is missing.
- The `if (!ts)` early returns: TypeScript is taken to be present.
- `getLineAndCharacterOfPosition` and `getStart`: foreign calls. An issue's position
  is the start offset stored in the identifier node.
- TypeNarrowing.GetLineAndColumn: the text, `pos` and `Identifier.start` count
  Unicode scalar values, where the JavaScript counts UTF-16 code units. On a text with
  a character outside the Basic Multilingual Plane the two differ: for `"😀\nx"` and
  offset 3 the source gives line 2, column 1 and the model line 2, column 2. Dafny's
  `char` cannot hold a lone surrogate, so the units are not modelled.
- Type annotations (`VariableDeclaration.type`) and type arguments
  (`CallExpression.typeArguments`) have no slot in `TsAst.Node`, although
  `ts.forEachChild` visits them. A dereference inside one, such as the computed key in
  `let v: { [x.k]: T } = ...`, is found by the source's walk but cannot be written in
  the model.
- TypeNarrowing.AnalyzeBlock: statement labels and `break`/`continue` targets are not
  modelled. They do not affect `blockHasExit`.
- Stream setup, `readlines`, `Path.is_file`, `read_text` and `splitlines`
  (`modules/helpers/filter_suppressions.py:6-11, 28, 48-56`). The file system is a
  map from each readable file's path to its lines; a path outside the map is one that
  is not a regular file or could not be read.
- The exception passthrough (`modules/helpers/filter_suppressions.py:70-79`): no
  modelled step raises past the loop. The `ValueError` that `int` can raise is caught
  within it, and `LineNumber` models that.
- SuppressionFilter.LineNumber: the digit limit is CPython's default of 4300. A limit
  set through `PYTHONINTMAXSTRDIGITS` or `-X int_max_str_digits`, and Python versions
  without the limit, are not modelled.
- SuppressionFilter.Lower: `str.lower()` is modelled for ASCII letters only.
  Non-ASCII letters are left unchanged.
- SuppressionFilter.ParseFinding: `\d` is modelled as the ASCII digits. The optional
  column group is not captured, because the filter never reads it.
- The command-safety guard that the test suite launches is not part of this model.
  Neither are the fixture programs under `test-suite/python/`.
