# Montauk view compiler, modelled in Dafny

Montauk is a small C# web framework. Its view engine reads `.html` view
templates, turns each one into a *compiled view* and then renders that view
once per request. This project models that pipeline.

Compilation runs in three steps:
1. one pass of the compile-phase **directives**, where the `%%Master=name%%` layout wraps the page;
2. the compile-phase **substitutions**, where `@@ … @@` comments are deleted and `[[ … ]]` head blocks are hoisted to `%%Head%%`;
3. one pass of the after-compile directives. `%%Placeholder=name%%` moves a `[name] .. [/name]` block to the token and `%%Partial=name%%` splices in another template. `%%Bundle=name%%` would emit CSS/JS links, but that handler is not registered.

A pass scans the page once for directive tokens and offers each token to every handler of the phase in turn. Each handler's output is committed with the `pageContent.Replace(before, returned)` idiom. The layouts a view uses are recorded as its dependencies.

Rendering works on a copy of the compiled view:
- the render-phase substitution runs (anti-forgery tokens);
- blank lines are removed;
- `{{key}}`, `{|key|}` and `{!key!}` tags are filled in raw, HTML-encoded and Markdown-rendered;
- leftover tags are deleted.

The engine adds a serialisable cache and change handling. When the changed
view has a stale compiled entry, the change handler patches that entry and
recompiles the views that depend on the changed one (or the view itself when
none does). Without a stale entry it compiles only the changed view.

The modules follow the program's structure:
- `Text` (`text.dfy`): .NET string operations as functions. `ReplaceAll` is `String.Replace`/`StringBuilder.Replace`, with its left-to-right, non-overlapping semantics. Also `IndexOf`, `Trim`, `ToLower` and the `ReplaceFirstInstance` extension method.
- `Builders` (`builder.dfy`): the `StringBuilder` the handlers mutate in place, as a class.
- `Scanning` (`scanning.dfy`): each regular expression of the compiler, written out as a scanner: the directive token, the head and placeholder blocks, the tag placeholders, blank lines and the indentation strip.
- `Templates` (`templates.dfy`): `TemplateInfo` and the list operations on the template and compiled-view lists (lookup, shared-name resolution, the remove-and-append update).
- `Substitutions` and `Directives` (`substitutions.dfy`, `directives.dfy`): the handlers. `BundleDirective` is a class because it keeps a mutable link cache.
- `Tags` (`tags.dfy`): the tag loop and the deletion of leftover tags in `Render`.
- `Compiler` (`compiler.dfy`): specification functions for a pass, `ProcessDirectives`, `Compile`, `CompileAll`, `RecompileDependencies` and `Render`. The `ViewCompiler` class has the compiler's fields, and each of its methods is proved equal to one of these functions.
- `Engine` (`engine.dfy`): `ViewEngine` — construction from a cache or from loaded templates, `OnChanged`, `GetCache` and `LoadView`.

Where the documented behaviour and the code disagree, the model follows the code:
- A `Partial` directive records no dependency. Only `Master` calls `AddPageDependency`.
- A directive value resolves to the first template whose full name *contains* `"Shared/" + value`. It does not need to equal it.
- In `Render`, blank lines are removed only when a tag map is given, and before the tags are filled in. The render-phase substitutions run before both.
- `Compile` stores a compiled view with a null `Path`. The fragment copy `CompileAll` makes keeps the template's `Path`.
- A fragment (a name containing `Fragment`) skips the directives but still has its blank lines collapsed.
- If directive processing yields an empty page, the raw template is used in its place.
- An empty compiled text makes the final `Replace` throw. That is modelled as the `EmptySearchString` error.
- A failure part-way through compilation keeps the state changes made before it.
- A cached bundle gets a second line break appended each time it is reused.
- When the changed view has a stale compiled entry and other views depend on it, `OnChanged` recompiles only those views. The changed view itself keeps its patched compiled entry, which holds the new *raw* template. Without a stale entry, only the changed view is compiled and no dependent is touched.

## Model

| member | source | states |
|---|---|---|
| Text.IndexOf | Montauk.cs:1166 | -1 exactly when the pattern does not occur; otherwise the first index where it occurs |
| Text.ReplaceFirstInstance | Montauk.cs:1164-1169 | unchanged when the pattern is absent; otherwise only the first occurrence is replaced, with prefix and suffix kept |
| Text.ReplaceFirstIsReplaceAllWhenUnique | Montauk.cs:1164-1169 | with at most one occurrence, replacing the first equals replacing all |
| Text.IndexOfIsFirstOccurrence | Montauk.cs:1166 | IndexOf agrees with the first element of the occurrence list |
| Text.ReplaceWhole | Montauk.cs:945-955 | `Replace(s, s, t)` on a non-empty `s` yields exactly `t`, which is how a handler's result is committed |
| Text.ReplaceSelf | Montauk.cs:945-955 | replacing a string by itself changes nothing |
| Text.ReplaceAbsent | Montauk.cs:519-525 | a Replace whose search string never occurs leaves the text unchanged |
| Text.ReplaceInFrame | Montauk.cs:519-525 | a Replace acts only inside a frame whose edges cannot start or end a match |
| Text.DeleteAllLeavesNone | Montauk.cs:599 | deleting every occurrence leaves none, and no character that only occurred inside them |
| Text.Trim | Montauk.cs:886-890 | the result is a contiguous slice of the input with no white space at either end, and everything cut off before or after it is white space |
| Text.ToLower | Montauk.cs:656 | same length; each upper-case ASCII letter becomes the lower-case letter at the same place in the alphabet, no upper-case letter remains, and every other character is kept |
| Text.LetterTables | Montauk.cs:656 | the upper-case table holds exactly `A`..`Z`, and lower-casing maps each of its letters to the matching lower-case one |
| Text.ToLowerIdempotent | Montauk.cs:656 | lower-casing twice is lower-casing once |
| Builders.StringBuilder.Replace | Montauk.cs:519 | the new text is every non-overlapping occurrence replaced, left to right |
| Builders.StringBuilder.ReplaceRange | Montauk.cs:553 | the replacement is confined to the given range; the text outside it is kept |
| Scanning.DirectiveMatches | Montauk.cs:758 | every match is a well-formed `%%Name=value%%` token occurring in the text |
| Scanning.OneDirective | Montauk.cs:758 | a text holding one `%%Name=value%%` token and no other `%` yields exactly that match, with its name and value |
| Scanning.BlockAt | Montauk.cs:498 | a match at the position is `open + body + close`, occurring there, with a non-empty body |
| Scanning.BlockAtLazy | Montauk.cs:498 | the match is lazy: its body, followed by the close mark, holds no earlier close mark |
| Scanning.BlocksFrom | Montauk.cs:498 | every block found is `open + body + close` and occurs in the text |
| Scanning.FirstBlockFrom | Montauk.cs:722-723 | the block found is `open + body + close` and occurs in the text |
| Scanning.FirstBlockFound | Montauk.cs:722-723 | the first opening mark and the first closing mark at least one character after it give the match |
| Scanning.FirstBlockIs | Montauk.cs:722-723 | in `pre + open + body + close + post`, with no opening mark in `pre` and no closing mark in `body`, the match is that block with that body |
| Scanning.RemoveBlocksAbsent | Montauk.cs:572 | without an opening mark, removing blocks leaves the text unchanged |
| Scanning.KeyPlaceholdersFrom | Montauk.cs:761 | each match is a `{{key}}`/`{|key|}`/`{!key!}` placeholder for that key, and occurs in the text |
| Scanning.TagPlaceholdersFrom | Montauk.cs:759 | each match is a tag placeholder occurring in the text |
| Scanning.WhiteLinesFrom | Montauk.cs:760 | each match is non-empty, all white space, and occurs in the text |
| Scanning.WhiteLineFound | Montauk.cs:760 | a white line that ends in a line break at a line start, followed by a non-white character, is the next match |
| Scanning.NoWhiteLines | Montauk.cs:760 | text without white space holds no match |
| Scanning.CollapseWithoutNewline | Montauk.cs:828 | text with no newline from the scan position on is unchanged by blank-line collapsing |
| Scanning.BlankLineCollapsed | Montauk.cs:828 | a leading white line and its newline are deleted; the single line after it is kept |
| Scanning.StripIndentFrom | Montauk.cs:518 | no longer than the input; starting at a line start, it does not begin with white space; it only takes characters from the input |
| Scanning.StripIndentKeeps | Montauk.cs:518 | text in which no line starts with white space is unchanged |
| Scanning.StripIndentDrops | Montauk.cs:518 | the white space opening a line is dropped and the rest of the line kept |
| Templates.FindIndex | Montauk.cs:815 | the first index with that full name, or none when no entry has it |
| Templates.Lookup | Montauk.cs:815 | some entry exactly when one has that full name, and then an entry of the list with that name |
| Templates.DetermineKeyName | Montauk.cs:918-923 | none exactly when no full name contains `Shared/` + value; otherwise a matching name that Lookup finds |
| Templates.RemoveFirst | Montauk.cs:839-842 | removes exactly the first entry with that name, or nothing |
| Templates.ReplaceEntryNamed | Montauk.cs:839-844 | other names' entries are kept; this name loses at most one entry and ends with the new one |
| Templates.ReplaceEntryKeepsUnique | Montauk.cs:839-844 | with at most one entry of the name beforehand, the new record is afterwards its only one |
| Templates.ReplaceEntryUnique | Montauk.cs:839-844 | a list with one entry per name keeps that property |
| Templates.FindIndexIsFirstNamed | Montauk.cs:815 | FindIndex succeeds exactly when some entry has the name, and it points at the first one |
| Templates.NamedUpdate | Montauk.cs:1093-1098 | patching an entry in place keeps other names' entries and every name's count |
| Templates.FindIndexAfterUpdate | Montauk.cs:903 | patching the found entry keeps it as the first one of its name |
| Substitutions.CommentSubstitution | Montauk.cs:570-573 | the result is never longer than the content |
| Substitutions.CommentRemoved | Montauk.cs:570-573 | one `@@ body @@` comment in text with no other `@` is deleted, and the text around it kept |
| Substitutions.CommentFreeUnchanged | Montauk.cs:570-573 | content without `@@` is unchanged |
| Substitutions.HeadSubstitution | Montauk.cs:508-528 | the buffer ends as HeadResult of its old text |
| Substitutions.HoistBlocks | Montauk.cs:512-525 | the head loop returns the unindented bodies joined in order and deletes every block from the buffer |
| Substitutions.HeadWithoutBlocks | Montauk.cs:512-525 | without `[[` the substitution only deletes `%%Head%%` |
| Substitutions.HeadHoistsBlock | Montauk.cs:510-526 | a single `[[body]]` block moves, unindented, to the `%%Head%%` slot and the block is deleted |
| Substitutions.HeadIdentity | Montauk.cs:508-528 | content with neither blocks nor slot is unchanged |
| Substitutions.AntiForgeryTokenSubstitution | Montauk.cs:545-556 | one token is minted per occurrence; occurrence k, counting from the end, gets the k-th freshly minted token |
| Substitutions.InjectUniformIsReplaceAll | Montauk.cs:545-556 | with a constant token, the substitution equals a global Replace |
| Directives.ResolveTemplate | Montauk.cs:592-593 | fails exactly when no full name contains `Shared/` + value; otherwise it is the template DetermineKeyName names |
| Directives.MasterPage | Montauk.cs:586-605 | ignores other directives; fails exactly on an unresolved layout; the page is the layout with `%%View%%` filled by the content and the token deleted; the layout name is recorded |
| Directives.MasterWrapsContent | Montauk.cs:597-599 | for a layout `pre %%View%% post`, the page is `pre + content without the token + post` |
| Directives.MasterRemovesToken | Montauk.cs:599 | the directive token no longer occurs in the resulting page |
| Directives.PartialResult | Montauk.cs:617-628 | ignores other directives; fails exactly on an unresolved template, with that error |
| Directives.PartialPageDirective | Montauk.cs:617-628 | returns PartialResult; the buffer holds the result on success and is unchanged on failure |
| Directives.PartialSplicesTemplate | Montauk.cs:621-624 | the token is replaced by the referenced template's text |
| Directives.PlaceHolderResult | Montauk.cs:718-734 | ignores other directives; without a `[name]..[/name]` block the content is unchanged |
| Directives.PlaceHolderDirective | Montauk.cs:718-734 | the buffer ends as PlaceHolderResult and is returned |
| Directives.PlaceHolderWithoutBlock | Montauk.cs:722-729 | without an opening `[name]`, nothing changes |
| Directives.PlaceHolderMovesBody | Montauk.cs:725-729 | the block's body replaces the token and the block disappears |
| Directives.PlaceHolderMovesBlock | Montauk.cs:720-729 | for `pre + token + mid + [name]body[/name] + post`, the block is found and the page becomes `pre + body + mid + post` |
| Directives.Extension | Montauk.cs:656 | the non-empty text after the last '.' that no separator follows; none when the path ends in '.' or no such '.' exists |
| Directives.BundleDirective.constructor | Montauk.cs:642-651 | keeps mode, folder and callback, and starts with an empty link cache |
| Directives.BundleDirective.ProcessBundleLink | Montauk.cs:653-669 | fails exactly without an extension; css and js give a link or script tag whose href is prefixed unless it holds '/'; other extensions give "" |
| Directives.BundleDirective.FileLinks | Montauk.cs:685-693 | a failure names a path without an extension |
| Directives.BundleDirective.Step | Montauk.cs:671-706 | ignores other directives; a cached bundle is reused with a line break appended; otherwise its links are computed, cached, and replace the token |
| Directives.BundleDirective.ComputeBundleLinks | Montauk.cs:683-697 | the links of an uncached bundle, as BundleLinks says: each file's link on its own line in debug mode, the bundle's own link otherwise, nothing for an empty name |
| Directives.BundleDirective.LinkFiles | Montauk.cs:687-692 | the loop over a bundle's files yields FileLinks of the list: each file's tag on its own line, or the first file's failure |
| Directives.BundleDirective.Process | Montauk.cs:671-706 | buffer and cache end as Step says on success and are unchanged on failure; the cache stays valid |
| Directives.BundleDirective.FileLinksFailurePersists | Montauk.cs:691-692 | once one file fails, the whole list fails with that error |
| Directives.BundleDirective.ReleaseBundleIsOneLink | Montauk.cs:695-696 | outside debug mode a bundle is one link to the bundle path, followed by a line break |
| Directives.BundleDirective.ReuseAddsLineBreak | Montauk.cs:679-680 | reusing a cached bundle inserts its links plus one more line break |
| Tags.RenderTagsIn | Montauk.cs:863-901 | the buffer ends as RenderTags of its old text |
| Tags.WhiteLineRemoved | Montauk.cs:866-867 | a white line opening the view is deleted with its line break, leaving the rest |
| Tags.DeleteEachIn | Montauk.cs:867-868 | a match loop deleting each match leaves the buffer as DeleteEach of its old text |
| Tags.ApplyMatchesIn | Montauk.cs:881-891 | the loop over one tag's matches leaves the buffer as ApplyMatches of its old text |
| Tags.EmptyValueReplacesNothing | Montauk.cs:883 | a tag with an empty value leaves the text unchanged |
| Tags.TagTextByOpeningMark | Montauk.cs:885-890 | `{{` inserts the trimmed value, `{|` its HTML encoding, `{!` its Markdown rendering |
| Tags.OneTagRendered | Montauk.cs:877-892 | a lone placeholder is replaced by its rendered value, with the rest kept |
| Tags.LeftoversGone | Montauk.cs:896-900 | deleting leftovers removes exactly the tag placeholders and leaves no `{` and no placeholder |
| Tags.DeleteEachPlaceholder | Montauk.cs:896-900 | deleting each listed placeholder drops exactly those pieces |
| Tags.ScanFindsPlaceholders | Montauk.cs:896 | the scan finds exactly the placeholders of a text made of placeholders and brace-free pieces |
| Compiler.AddDependency | Montauk.cs:925-929 | the name ends up in the list, the old list is a prefix, nothing else is added and there are no duplicates |
| Compiler.DirectivesIn | Montauk.cs:960-965 | exactly the registered directive handlers of that phase |
| Compiler.SubstitutionsIn | Montauk.cs:860-863 | exactly the registered substitution handlers of that phase |
| Compiler.RegisteredPhases | Montauk.cs:123-128 | Master compiles; Placeholder and Partial run after compile; Comment and Head compile; AntiForgery renders |
| Compiler.Commit | Montauk.cs:945-955 | fails exactly when the text the handler started from was empty; a handler that returned a new page (the buffer still holding the old text) gets its result as the page, and a handler that edited the buffer in place so that the old text no longer occurs leaves the page as edited; dependencies, link cache and token count are untouched |
| Compiler.HandlerStep | Montauk.cs:943-955 | dependencies only grow, without duplicates; no tokens are issued; the error is never a missing template |
| Compiler.RunHandlersStep | Montauk.cs:943-955 | handlers run in order and the first error stops the loop |
| Compiler.Pass | Montauk.cs:931-958 | a pass over the page's directive tokens only grows the dependencies, without duplicates, and issues no tokens |
| Compiler.SubstituteStep | Montauk.cs:962-963 | only the anti-forgery handler issues tokens, one per occurrence |
| Compiler.SubstituteAll | Montauk.cs:962-963 | the token count never decreases, and is unchanged without the anti-forgery handler |
| Compiler.SubstituteAllIgnoresIssued | Montauk.cs:860-861 | without the anti-forgery handler, the text does not depend on the token count |
| Compiler.ProcessDirectivesSpec | Montauk.cs:960-965 | compile pass, compile substitutions, after-compile pass: they only grow the dependencies; the error is never a missing template |
| Compiler.HandlersIgnoreOtherDirective | Montauk.cs:943-955 | an unknown directive changes nothing |
| Compiler.MasterStepWrapsPage | Montauk.cs:586-601 | one Master step wraps the page in its layout and records the layout name |
| Compiler.FinishCompile | Montauk.cs:828-846 | fails exactly on an empty text; otherwise the record replaces the old entry |
| Compiler.CompileSpec | Montauk.cs:813-850 | a missing template fails and changes nothing; a success stores the record built from the template, with a null path and an empty result |
| Compiler.CompileDependencyFrame | Montauk.cs:913-929 | compiling changes only the view's own dependency list, by extension, and keeps the state well formed |
| Compiler.CompileKeepsOtherViews | Montauk.cs:839-844 | other names' compiled entries are unchanged |
| Compiler.CompileKeepsUnique | Montauk.cs:839-844 | the compiled record becomes its name's only entry, and one-entry-per-name is kept |
| Compiler.CompileFragment | Montauk.cs:822-828 | a fragment skips the directives and stores its raw template with blank lines collapsed; it fails only when empty |
| Compiler.CompileKeepsRecord | Montauk.cs:839-844 | other names' records survive a compile |
| Compiler.CompileAllKeepsRecord | Montauk.cs:790-811 | records for names that are not recompiled survive CompileAll |
| Compiler.CompileAllCopiesFragments | Montauk.cs:796-806 | each fragment is copied into the compiled views with an empty result |
| Compiler.Dependents | Montauk.cs:972 | exactly the views whose dependency list names the view |
| Compiler.RecompileTargetsAre | Montauk.cs:970-990 | a view is recompiled exactly when it depends on the changed one, or it is the changed one and nothing depends on it |
| Compiler.CompileEachKeepsOthers | Montauk.cs:974-990 | views not in the list keep their entries |
| Compiler.CompileEachStateOk | Montauk.cs:974-990 | the dependency state stays well formed |
| Compiler.CompileEachKeepsUnique | Montauk.cs:974-990 | one entry per name is kept |
| Compiler.RecompileKeepsUntargeted | Montauk.cs:970-991 | views that do not depend on the changed one keep their entries |
| Compiler.RenderSpec | Montauk.cs:852-908 | none exactly when no compiled view has the name, and then nothing changes; otherwise the found record is returned with its result set to the rendered text, and only the compiled views and the token count change |
| Compiler.RenderKeepsRegistry | Montauk.cs:903-905 | afterwards the registry entry for the name is the record Render returns, so later snapshots carry its result; the compiled template and every other view's entries are kept |
| Compiler.RenderRepeatable | Montauk.cs:852-908 | without the anti-forgery handler, rendering twice yields the same view |
| Compiler.ViewCompiler.constructor | Montauk.cs:769-788 | the compiler holds the given lists and setup |
| Compiler.ViewCompiler.AddPageDependency | Montauk.cs:925-929 | only the view's own dependency list changes, as AddDependency says |
| Compiler.ViewCompiler.CommitReturned | Montauk.cs:945-955 | committing a handler's output fails on an empty search text and changes nothing; otherwise every occurrence of the old text is replaced by the output |
| Compiler.ViewCompiler.MasterProcess | Montauk.cs:586-605 | the Master handler's call and commit, as HandlerStep says; only the view's own dependency list changes |
| Compiler.ViewCompiler.PartialProcess | Montauk.cs:617-628 | the Partial handler's call and commit, as HandlerStep says |
| Compiler.ViewCompiler.PlaceHolderProcess | Montauk.cs:718-734 | the Placeholder handler's call and commit, as HandlerStep says |
| Compiler.ViewCompiler.BundleProcess | Montauk.cs:671-706 | the Bundle handler's call and commit, as HandlerStep says; only the link cache changes in the state, and it stays valid |
| Compiler.ViewCompiler.HandlerProcess | Montauk.cs:945-955 | one handler call and commit, as HandlerStep says; only the view's dependency list and the link cache change |
| Compiler.ViewCompiler.ProcessMatch | Montauk.cs:943-955 | the handler loop for one match, as RunHandlers says |
| Compiler.ViewCompiler.PerformCompilerPass | Montauk.cs:931-958 | one pass over the directive tokens, as Pass says |
| Compiler.ViewCompiler.Substitute | Montauk.cs:962-963 | one substitution, as SubstituteStep says |
| Compiler.ViewCompiler.RunSubstitutions | Montauk.cs:962-963 | a phase's substitutions in order, as SubstituteAll says |
| Compiler.ViewCompiler.RunPhases | Montauk.cs:960-965 | the two directive phases and the compile substitutions, as ProcessDirectivesSpec says |
| Compiler.ViewCompiler.AfterFirstPass | Montauk.cs:962-965 | the compile substitutions and then the after-compile pass, as ProcessDirectivesSpec's second branch says |
| Compiler.ViewCompiler.ProcessDirectives | Montauk.cs:911-968 | the dependency key is created, then the phases run from the raw view |
| Compiler.ViewCompiler.Compile | Montauk.cs:813-850 | the new state and result are CompileSpec's |
| Compiler.ViewCompiler.StoreCompiled | Montauk.cs:828-846 | the final blank-line collapse and the registry update, as FinishCompile says, keeping the compiler valid |
| Compiler.ViewCompiler.CompileAll | Montauk.cs:790-811 | the new state and result are CompileAllFrom's |
| Compiler.ViewCompiler.RecompileDependencies | Montauk.cs:970-991 | the new state and error are RecompileSpec's |
| Compiler.ViewCompiler.Render | Montauk.cs:852-909 | the new state and result are RenderSpec's |
| Engine.Snapshot | Montauk.cs:1115-1125 | restoring a snapshot gives back the compiler's state, with the token count reset |
| Engine.FindStale | Montauk.cs:1091 | the first compiled entry of the name whose checksum differs, or none |
| Engine.Patched | Montauk.cs:1093-1098 | name and path kept; template and checksum taken from the new record; result cleared |
| Engine.OnChangedSpec | Montauk.cs:1087-1105 | the template store swaps in the new record; an error is one a handler raises, never a missing view, since the changed view is in the store |
| Engine.OnChangedStoresTemplate | Montauk.cs:1088-1089 | the new record becomes its name's only template and Lookup finds it |
| Engine.OnChangedCompilesNewView | Montauk.cs:1091-1105 | with no stale entry the view is compiled from the new template, and its only entry carries the new checksum |
| Engine.OnChangedKeepsUnrelated | Montauk.cs:1087-1105 | views that do not depend on the changed one keep their entries |
| Engine.OnChangedLeavesDependedOnViewPatched | Montauk.cs:1093-1105 | when others depend on it, the changed view keeps only its patched raw entry |
| Engine.OnChangedKeepsState | Montauk.cs:1087-1105 | the dependency state stays well formed |
| Engine.Initial | Montauk.cs:1048-1064 | without a cache, the engine starts from the loaded templates with empty compiled views and dependencies |
| Engine.CompileAllErrors | Montauk.cs:790-811 | CompileAll over stored templates never fails with a missing template |
| Engine.ViewEngine.Create | Montauk.cs:1021-1074 | fails with no view root, or with no cache and no templates; otherwise the compiler holds the cache, or the result of compiling everything |
| Engine.ViewEngine.OnChanged | Montauk.cs:1076-1113 | the new state and error are OnChangedSpec's; CacheUpdated is set on success |
| Engine.ViewEngine.GetCache | Montauk.cs:1115-1125 | the snapshot of the compiler's lists, with CacheUpdated cleared |
| Engine.ViewEngine.LoadView | Montauk.cs:1144-1154 | the rendered view's result, or none when the view is unknown |

## Left out

- File loading, directory watching and change notification are left out. The loader's results are parameters: the templates `Create` is given, and the template `OnChanged` is given.
- JSON (de)serialisation of the cache is left out. A cache is a `ViewCache` value, and a cache string that is absent, empty or deserialises to null is `None`. Malformed JSON makes `JsonConvert.DeserializeObject` throw (Montauk.cs:1050-1059); that exception is not modelled.
- MD5 checksums are opaque strings.
- HTML encoding and Markdown rendering are opaque function parameters (`Encoders`).
- Anti-forgery token creation (GUIDs) is a `mint` function parameter, indexed by a count of issued tokens.
- Regular expressions are modelled as hand-written scanners for the patterns used. Regex metacharacters in directive values and tag keys, which the code interpolates unescaped, are assumed absent.
- .NET culture rules, Unicode white space beyond the ASCII set, and `ToLower` outside ASCII are left out.
- Text.IsWordChar: `\w` in the leftover-tag pattern (Montauk.cs:759, 896) is ASCII letters, digits and `_` here, while .NET's `\w` also takes other Unicode letters. A leftover `{{café}}` whose key is not in the tag map is therefore deleted by the code but kept by the model. Tags whose key is in the map are unaffected, since the per-key pattern (Montauk.cs:761, 873) takes the key literally.
- `templateKeyNames` is left out, because nothing in the compiler reads it.
- The `ViewCompilerDirectiveInfo` record is left out. Handlers receive its fields as arguments.
- `TemplateInfo` records are values. The code never shares one record between the template and compiled lists: `Compile` and the fragment copy in `CompileAll` each build a new one (Montauk.cs:798-805, 830-837). The in-place field writes, of `Result` in `Render` (Montauk.cs:903) and of checksum, template and result in `OnChanged` (Montauk.cs:1095-1097), become updates of the compiled-view entry in the registry.
- The engine's lists and the compiler's lists are one shared state. The fresh `ViewCompiler` that `OnChanged` builds over the same lists is modelled as the same object.
- Argument errors thrown by `Path.GetExtension` on paths with invalid characters are left out. The null reference from an unresolved `Master` or `Partial` reference (Montauk.cs:593, 622) is modelled as the `UnresolvedReference` error, and the empty-search `Replace` as `EmptySearchString`.
- `BundleDirective` is modelled but not registered, matching the registration code. A bundle's file list is a table standing in for the callback.
- Concurrency and the polling timer are left out.
- A null template returned by the loader is left out. The loader returns a record.
- Engine.ViewEngine.Create: requires that the starting state is well formed (`CacheOk`). The code does not check a deserialised cache.
