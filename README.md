# snakecasejs: a verified model of the rule

This project models the single ESLint rule `snakecasejs` of eslint-snakecase.
The rule checks the plain `Identifier` nodes of a fixed set of syntax positions:
the id of a variable declarator, the name of a function declaration or expression,
each parameter of a function, function expression or arrow function, the key of a
non-computed method other than the constructor, the key of a non-computed property
that is neither a method nor shorthand, and a catch parameter (plugin.js:67-127).
Bindings that are not a plain `Identifier` at those positions are skipped: names inside
object or array destructuring, parameters with a default value, rest parameters.
The keys of an object pattern are still checked, because the `Property` listener runs on them:
in `const { fooBar: x } = o` the key `fooBar` is flagged, while the bound name `x` is not.
Class names, import bindings and labels are never checked. Each checked name that is neither
`snake_case` nor `SCREAMING_SNAKE_CASE` is flagged with a fix.
The fix renames the declaration and the references of the variable that the
lookup chain finds: the name in the node's own scope, else in that scope's
immediate upper scope, else the node's first declared variable (plugin.js:30-41).
A variable declared further out is not found, and then only the declaration is renamed.

The model has five modules, one per part of the rule:

- `CaseClassifier` (`case_classifier.dfy`): `is_snake_case`. The two anchored regular
  expressions `^_*[a-z]+(_[a-z]+)*$` and `^_*[A-Z]+(_[A-Z]+)*$` become the recursive
  predicates `Segments` (letter segments joined by single underscores) and
  `Anchored` (leading underscores, then `Segments`). `IsSnakeCase` is their
  disjunction. Each is proved equal to a declarative description of the same language (`SegmentShape`).
- `Transliteration` (`transliteration.dfy`): the suggested name. The source's three passes are
  `InsertUnderscores` (`_` before every ASCII capital), `ToLower` and
  `CollapseUnderscores` (each run of two or more underscores becomes one). `SnakeName` chains them.
- `FixEngine` (`fix_engine.dfy`): `check_identifier`. The host's scope manager is
  consumed as data. A `Scope` has a map of `Variable`s and an optional upper
  scope. A `Variable` has a sequence of `Ref`s. A `Ref` names the identifier node it occurs at.
  `References` is the lookup chain: own scope, upper scope, first declared variable,
  nothing. `FixList` is the edit list: the declaration first, then every reference
  not at the declaration node. `BuildFixes` and `CheckIdentifier` are the
  imperative code (the `push` loop, the reassigned `references`). They are proved equal
  to `FixList` and `Diagnose`.
- `Visitors` (`visitors.dfy`): the listener table as a tagged union `Node`.
  `Sites` gives the ordered `(node, name)` pairs handed to `check_identifier`.
  `Visit`, `CheckFunction`, `CheckParams` and `CheckChild` are the listeners
  with their `forEach` loops. They are proved to produce `ReportsFor(Sites(n))`.
- `Wrappers` (`wrappers.dfy`): `Option`.

Two consequences of the code are worth stating:

- A leading capital keeps its inserted underscore: `HTTPGet` becomes `_h_t_t_p_get`
  (plugin.js:25-27; `Transliteration.ExampleLeadingUpper`). Nothing strips a leading underscore.
- The fix skips only references at the declaration node itself (plugin.js:56), so a node named
  by two references is edited twice. `FixEngine.FixListNoDuplicates` therefore assumes
  references at distinct nodes, as a scope manager produces them.

## Model

| member | source | states |
|---|---|---|
| CaseClassifier.LeadingUnderscores | plugin.js:17-18 | the `_*` prefix: the count of leading underscores, all of them `_`, and the next character (if any) is not `_` |
| CaseClassifier.Segments | plugin.js:17-18 | the `[a-z]+(_[a-z]+)*` / `[A-Z]+(_[A-Z]+)*` part of each regex; its meaning is `SegmentsIff` |
| CaseClassifier.Anchored | plugin.js:17-18 | one whole regex, `^_*` then the segments up to `$`; its meaning is `AnchoredIff` |
| CaseClassifier.IsSnakeCase | plugin.js:15-20 | `is_snake_case`: either regex matches; its meaning is `IsSnakeCaseIff` and the rejection lemmas below |
| CaseClassifier.SegmentsIff | plugin.js:17-18 | the recursive matcher of `L+(_L+)*` accepts exactly the non-empty strings of letters and underscores that start and end with a letter and never have two underscores in a row |
| CaseClassifier.AnchoredIff | plugin.js:17-18 | `^_*L+(_L+)*$` holds exactly when the part after the leading underscores has that shape |
| CaseClassifier.IsSnakeCaseIff | plugin.js:15-20 | both directions: `is_snake_case` holds iff, after the leading underscores, the name is all-lower-case or all-upper-case segments joined by single underscores |
| CaseClassifier.RejectsOnlyUnderscores | plugin.js:15-20 | the empty name and names made of underscores only are rejected |
| CaseClassifier.RejectsTrailingUnderscore | plugin.js:15-20 | a name ending in `_` is rejected |
| CaseClassifier.RejectsInnerDoubleUnderscore | plugin.js:15-20 | two underscores in a row after some letter are rejected |
| CaseClassifier.RejectsForeignCharacter | plugin.js:15-20 | a digit or any other character that is not an ASCII letter or `_` is rejected |
| CaseClassifier.RejectsMixedCase | plugin.js:15-20 | a name with both a lower-case and an upper-case letter is rejected |
| CaseClassifier.Examples | plugin.js:15-20 | `foo`, `my_var`, `FOO_BAR`, `__foo` accepted; `myVar`, `foo__bar`, `foo_`, `value1` rejected |
| Transliteration.InsertUnderscores | plugin.js:25 | pass 1 never shortens the name; what it inserts is stated by `InsertUnderscoresLength` and `UnmarkInsert` |
| Transliteration.InsertUnderscoresLength | plugin.js:25 | pass 1 adds exactly one character per ASCII capital |
| Transliteration.UnmarkInsert | plugin.js:25 | deleting each underscore that directly precedes a capital gives back the input: pass 1 inserts exactly `_` before capitals and nothing else |
| Transliteration.InsertUnderscoresConcat | plugin.js:25 | pass 1 works character by character: on a concatenation it is the concatenation of its results |
| Transliteration.InsertUnderscoresShape | plugin.js:25 | on a letters-only name, every underscore pass 1 produces is directly followed by an upper-case letter |
| Transliteration.DropAfterInsert | plugin.js:25 | pass 1 adds underscores and nothing else |
| Transliteration.Lowered | plugin.js:26 | an ASCII capital becomes the lower-case letter at the same alphabet position; every other character is unchanged; so no ASCII capital remains and exactly `_` maps to `_` |
| Transliteration.ToLower | plugin.js:26 | `.toLowerCase()`: `Lowered` at every position; its meaning is `Lowered`, `ToLowerConcat`, `DropAfterLower` and `ToLowerIdentity` |
| Transliteration.ToLowerConcat | plugin.js:26 | pass 2 works character by character: on a concatenation it is the concatenation of its results |
| Transliteration.DropAfterLower | plugin.js:26 | pass 2 commutes with deleting underscores: it neither creates nor removes an underscore |
| Transliteration.LowerKeepsMarks | plugin.js:26 | lower-casing the output of pass 1 on letters gives lower-case letters, with each underscore followed by a letter |
| Transliteration.CollapseUnderscores | plugin.js:27 | pass 3 never lengthens the name and keeps its first character; `CollapseRun` and `CollapseCopies` together fix its output on every input |
| Transliteration.CollapseKeepsCharacters | plugin.js:27 | pass 3 only deletes: every output character occurs in the input |
| Transliteration.CollapseRemovesDoubles | plugin.js:27 | the output of pass 3 never has two consecutive underscores |
| Transliteration.DropAfterCollapse | plugin.js:27 | pass 3 removes underscores and nothing else |
| Transliteration.MarkedLowerConforms | plugin.js:15-20 | a non-empty string of lower-case letters whose every underscore is followed by a letter passes `is_snake_case` |
| Transliteration.CollapseCopies | plugin.js:27 | a character that does not start a run of two underscores is copied unchanged by pass 3 |
| Transliteration.CollapseRun | plugin.js:27 | a run of two or more underscores becomes exactly one `_`, and pass 3 continues on the text after the run |
| Transliteration.InsertUnderscoresIdentity | plugin.js:25 | pass 1 leaves a name without ASCII capitals unchanged |
| Transliteration.ToLowerIdentity | plugin.js:26 | pass 2 leaves a name without ASCII capitals unchanged |
| Transliteration.CollapseIdentity | plugin.js:27 | pass 3 leaves a name without doubled underscores unchanged |
| Transliteration.SnakeName | plugin.js:24-27 | the suggested name never contains two consecutive underscores, nor any ASCII capital |
| Transliteration.SnakeNameIdempotent | plugin.js:24-27 | transliterating the suggested name again returns it unchanged |
| Transliteration.SnakeNameKeepsLetters | plugin.js:24-27 | deleting underscores from the suggested name gives the lower-cased input with underscores deleted: letters survive, in order |
| Transliteration.SnakeNameOfLetters | plugin.js:24-27 | on a name of ASCII letters only, pass 3 changes nothing, and the result is lower-case letters with each underscore followed by a letter |
| Transliteration.SnakeNameConforms | plugin.js:15-27 | for a non-empty name of ASCII letters only, the suggested name passes `is_snake_case` |
| Transliteration.ExampleCamel | plugin.js:24-27 | `myVar` becomes `my_var` |
| Transliteration.ExampleAcronym | plugin.js:24-27 | `reqID` becomes `req_i_d` |
| Transliteration.ExampleLeadingUpper | plugin.js:24-27 | `HTTPGet` becomes `_h_t_t_p_get` |
| Transliteration.ExampleCollapse | plugin.js:24-27 | `x_Y` becomes `x_y`: the underscore pass 1 adds next to an existing one is collapsed |
| Transliteration.ExampleUnchanged | plugin.js:15-27 | `value1` is rejected and its suggestion is `value1` itself |
| FixEngine.BuildFixes | plugin.js:47-62 | the `push` loop of `fix` builds exactly `FixList`: the declaration's edit, then one edit per reference not at the declaration node, in reference order |
| FixEngine.References | plugin.js:30-41 | the reference lookup chain; its meaning is `ResolutionOrder` and `UnresolvedRenamesDeclarationOnly` |
| FixEngine.ReferenceEdits | plugin.js:54-59 | the `references.forEach` edits; their meaning is the `ReferenceEdits*` lemmas below |
| FixEngine.FixList | plugin.js:47-61 | the whole edit list of `fix`; its meaning is `FixListProperties`, `FixListCovers` and `FixListNoDuplicates` |
| FixEngine.Diagnose | plugin.js:22-65 | a report is produced iff the name is not snake case |
| FixEngine.CheckIdentifier | plugin.js:22-65 | the imperative check equals `Diagnose`; a conforming name needs no scope, a non-conforming one needs the name in the node's scope or an upper scope |
| FixEngine.ReferenceEditsText | plugin.js:54-59 | every reference edit uses the same replacement text |
| FixEngine.ReferenceEditsCount | plugin.js:54-59 | the reference edits never target the declaration node and target every other node as often as a reference names it |
| FixEngine.ReferenceEditsLength | plugin.js:54-59 | there are as many reference edits as references not at the declaration node |
| FixEngine.ReferenceEditsConcat | plugin.js:54-59 | the reference edits keep reference order (they distribute over concatenation) |
| FixEngine.ReferenceEditsAll | plugin.js:54-59 | with no reference at the declaration node, the reference edits target the references one for one, in order |
| FixEngine.FixListProperties | plugin.js:47-61 | first edit is the declaration; all edits carry the same text; the declaration node is targeted exactly once, every other node as often as in the references; length is 1 plus the references at other nodes |
| FixEngine.FixListCovers | plugin.js:47-61 | the fix targets exactly the declaration node and the nodes of the references |
| FixEngine.DistinctOccurOnce | plugin.js:54-59 | references at pairwise distinct nodes name each node at most once |
| FixEngine.FixListNoDuplicates | plugin.js:47-61 | with references at distinct nodes, no node is edited twice |
| FixEngine.ConformingNotReported | plugin.js:23 | a conforming name, e.g. `FOO_BAR` or `__foo`, is never reported, whatever the scope (no lookup is made) |
| FixEngine.ReportFix | plugin.js:22-65 | a report for a non-conforming name is at the node, carries the name, renames the declaration first and exactly once, uses `SnakeName(name)` throughout, and covers exactly the declaration and the resolved references |
| FixEngine.ResolutionOrder | plugin.js:30-41 | the node's own scope wins, then the upper scope, then the first declared variable |
| FixEngine.UnresolvedRenamesDeclarationOnly | plugin.js:30-41 | when no lookup finds the name, the fix renames only the declaration |
| FixEngine.ExampleDeclarator | plugin.js:22-65 | `let myVar = 1; myVar + 1` at top level: both occurrences become `my_var`, each once |
| Visitors.CheckChild | plugin.js:69-70 | one `Identifier`-guarded call of `check_identifier` reports what `ReportsFor` says on the child's site |
| Visitors.CheckParams | plugin.js:77-81 | the `params.forEach` loop reports, in order, on every `Identifier` parameter and skips the others |
| Visitors.CheckFunction | plugin.js:73-92 | a function listener reports on its name (if any) and then on its parameters |
| Visitors.Visit | plugin.js:67-127 | each listener's reports are those of `ReportsFor` over `Sites(n)`, in order |
| Visitors.Sites | plugin.js:67-127 | the sites each listener checks, in call order; its meaning is `Checked` (what is checked), `Exemptions` (what is not), `FunctionNameFirst` and the `ParamSites*` lemmas |
| Visitors.ParamSites | plugin.js:77-81 | the `Identifier` parameters in order; its meaning is `ParamSitesMembers`, `ParamSitesConcat`, `ParamSitesAllIdentifiers` and `SitesBound` |
| Visitors.ReportsFor | plugin.js:67-127 | the reports of checking sites in order; its meaning is `ReportsAreViolations`, `ViolationsAreReported` and `ReportsForConcat` |
| Visitors.ParamSitesMembers | plugin.js:77-81 | a parameter is checked iff it is an `Identifier` |
| Visitors.ParamSitesConcat | plugin.js:77-81 | parameters are checked in their order |
| Visitors.ParamSitesAllIdentifiers | plugin.js:77-81 | when all parameters are identifiers, each is checked exactly once, at its own position |
| Visitors.SitesBound | plugin.js:77-81 | no more sites than parameters |
| Visitors.FunctionNameFirst | plugin.js:73-92 | a function's name is checked before its parameters |
| Visitors.Exemptions | plugin.js:100-127 | class names, constructors, computed method keys, computed/method/shorthand property keys, param-less or non-identifier catch parameters and non-identifier declarators yield no site |
| Visitors.Checked | plugin.js:67-127 | an `Identifier` declarator id, a non-computed non-constructor method key, a non-computed property key that is neither a method nor shorthand, and an `Identifier` catch parameter each yield exactly their own site; a nameless function or an arrow function checks its parameters |
| Visitors.ReportsForConcat | plugin.js:67-127 | checking two lists of sites one after the other reports their reports one after the other |
| Visitors.ReportsAreViolations | plugin.js:67-127 | every report is the `Diagnose` report of a checked site with a non-conforming name (so it carries that site's fix list); conforming sites are silent |
| Visitors.ViolationsAreReported | plugin.js:67-127 | conversely, every checked site whose name is not snake case gets a report at its node with its name |
| Visitors.ExampleFunction | plugin.js:73-82 | `function HTTPGet(reqID) {}` checks `HTTPGet`, then `reqID` |

## Left out

- ESLint host plumbing is not modelled: the `meta` block, `context.getSourceCode()`, `context.report` and the message template `Identifier "{{name}}" is not in snake_case.`. A report carries the node, the name and the edits.
- The `fix(fixer)` callback runs only when the host asks for fixes. The model computes its edits eagerly. The edits are the same because the callback is pure.
- `fixer.replaceText` and text ranges are not modelled. An edit is a (node id, replacement text) pair.
- The scope manager and the AST are inputs. `SourceCode.getScope` and `SourceCode.getDeclaredVariables` are given functions, and no scope analysis or parsing is modelled.
- The host's traversal, which decides the order in which listeners run, is not modelled. `Visit` models one listener call.
- The regular-expression engine is replaced by explicit character predicates.
- `toLowerCase` is modelled for ASCII only. Non-ASCII characters are left unchanged, and `[A-Z]` matches ASCII only, as in the source.
- Strings are sequences of `char`. UTF-16 surrogate pairs are not modelled.
- The commented-out older predicate at plugin.js:14 is not modelled.
- At the global scope, `upper` is `null`, and the lookup at plugin.js:30 throws when the name is missing there. The model excludes this case with the precondition `Checkable` (also `CanResolve`); it is not modelled as behaviour. The precondition applies only to names that are not snake case.
- FixEngine.FixListNoDuplicates: does not claim that the code removes duplicate references at other nodes, because the code only skips references at the declaration node.
