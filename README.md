# laravel-markdown-emails, modelled in Dafny

This project models the core of `uglydawg/laravel-markdown-emails`, a Laravel
package that turns markdown into HTML emails. It covers two parts.

**The renderer** (`MarkdownEmailRenderer`):
- placeholder substitution, key by key in map order: first `{{ key }}`, then
  the second search string as the code spells it (PHP reads `"{{$key}}"` as
  `{key}`; see "## Findings");
- the HTML filter: the configured tag list becomes the `<p><strong>…>`
  allow-string, which is handed to `strip_tags`;
- subject sanitising: header-injection characters are deleted, then the
  length limit is applied;
- `render` and `create`, modelled as functions over an abstract markdown
  converter and an abstract view renderer. A failure in either one surfaces
  as a single error that carries the fixed prefix.

**The stored email record** (`MarkdownEmail`):
- a class whose `status`, `sentAt` and `errorMessage` fields are updated in
  place by `MarkAsSent` and `MarkAsFailed`;
- the `sent` and `failed` query scopes, modelled as filters over a sequence
  of rows.

Files:
- `wrappers.dfy`: `Option` and `Result`.
- `strings.dfy`: the PHP and Laravel string builtins the code relies on:
  - `str_replace` with a single search string (`ReplaceAll`);
  - deleting a set of characters (`WithoutChars`);
  - `implode`, `strtolower` and `rtrim`;
  - `Str::limit` (`Limit`).
- `tag_scanner.dfy`: a tag scanner that stands in for PHP's `strip_tags`. It
  splits the input into text characters, complete tags and an unterminated
  tail. The text is kept. A tag is kept exactly when `<name>`, lower-cased,
  occurs in the lower-cased allow-string. All other tags are dropped, and so
  is an unterminated tail. How the name is read differs from PHP in places;
  see `TagScanner.StripTags` under "## Left out".
- `markdown_email.dfy`: module `Email`, the record and its scopes.
- `renderer.dfy`: module `Renderer`, the configuration, the substitution
  loop, the allow-string, the renderer class and its operations.
- `feature_examples.dfy`: the concrete cases that the feature tests check,
  derived from the general lemmas.

### Behaviour worth knowing

- Substitution is sequential `str_replace`, not a single pass. A value
  inserted for an earlier key is expanded again by later keys
  (`SubstituteInMapOrder`).
- A placeholder without a variable is not an error. It is left in place.
- `ButtonType` only declares enum cases; no code builds buttons.

## Model

| member | source | states |
|---|---|---|
| Renderer.ConverterSetup | src/MarkdownEmailRenderer.php:28-51 | The converter environment strips raw HTML and refuses unsafe links. The core extension always comes first and appears only once. Table, strikethrough and autolink are each enabled exactly when their name is in the configured extension list. At most four extensions are enabled. |
| Renderer.MarkdownEmailRenderer.constructor | src/MarkdownEmailRenderer.php:22-26 | Keeps the configuration and the converter, and builds the converter environment from the configuration. |
| Renderer.MarkdownEmailRenderer.ReplaceVariables | src/MarkdownEmailRenderer.php:92-100 | The loop computes the key-by-key substitution `Substitute`: each variable in map order, `{{ key }}` first, then `{key}` as the code spells it. With an empty map the markdown comes back unchanged. |
| Renderer.Substitute | src/MarkdownEmailRenderer.php:94-97 | The loop's result as a function (no contract of its own); its properties are stated by `SubstituteAppend`, `SubstituteInMapOrder`, `SubstituteTwoPlaceholders` and `SubstituteKeepsBraces`. |
| Renderer.ReplaceKey | src/MarkdownEmailRenderer.php:95-96 | One step of the loop as written (no contract of its own); its properties are stated by `ReplaceKeyAtSpaced`, `ReplaceKeySkipsOtherKey`, `ReplaceKeyNoBrace` and `ReplaceKeyKeepsBraces`. |
| Strings.ReplaceAll | src/MarkdownEmailRenderer.php:95-96 | `str_replace` with one search string (no contract of its own); its behaviour is stated by `ReplaceAllFirstOccurrence`, `ReplaceAllSkip`, `ReplaceAllNoStart`, `ReplaceAllAtStart` and `ReplaceCharByEmpty`. |
| Renderer.SubstituteAppend | src/MarkdownEmailRenderer.php:94-97 | Substituting a map `a + b` is substituting `a` first and then `b` in the result, so every key operates on the text the earlier keys produced. |
| Renderer.SubstituteInMapOrder | src/MarkdownEmailRenderer.php:94-97 | A value inserted for an earlier key that contains `{{ laterKey }}` is expanded by the later key. In the reverse order it is left as it is. |
| Renderer.SubstituteTwoPlaceholders | src/MarkdownEmailRenderer.php:94-97 | Two distinct placeholders in brace-free text, with brace-free values, each become their value. The text around them is untouched. |
| Renderer.ReplaceKeyAtSpaced | src/MarkdownEmailRenderer.php:95-96 | In a step as written, a spaced placeholder after brace-free text is replaced by its brace-free value, and the step continues after it. |
| Renderer.ReplaceKeySkipsOtherKey | src/MarkdownEmailRenderer.php:95-96 | A spaced placeholder for a different name survives both passes of a key's step. |
| Renderer.ReplaceKeyNoBrace | src/MarkdownEmailRenderer.php:95-96 | Text without `{` is unchanged by a substitution step. |
| Renderer.ReplaceKeyKeepsBraces | src/MarkdownEmailRenderer.php:96 | With the search string as written, `{{key}}` becomes `{` + value + `}`, and a single-brace `{key}` becomes the value. |
| Renderer.SubstituteKeepsBraces | src/MarkdownEmailRenderer.php:94-97 | The whole loop as written turns `{{key}}` into `{` + value + `}` and `{key}` into the value. |
| Renderer.ReplaceKeyIntendedAtUnspaced | src/MarkdownEmailRenderer.php:96 | With the intended search string `{{key}}`, an unspaced placeholder in brace-free text is replaced by its value. |
| Renderer.ReplaceKeyIntendedUnspaced | src/MarkdownEmailRenderer.php:96 | With the intended search string, the step turns `{{key}}` into exactly the value. |
| Renderer.SubstituteIntendedUnspaced | src/MarkdownEmailRenderer.php:94-97 | The loop with the intended search string turns `{{key}}` into exactly the value. |
| Renderer.SubstituteIntendedKeepsSingleBraced | src/MarkdownEmailRenderer.php:94-97 | The loop with the intended search string leaves single-brace text `{key}` as it is. |
| FeatureExamples.GreetingSubstituted | tests/Feature/MarkdownEmailRenderingTest.php:36-44 | `Hello {{ name }}, welcome to {{ company }}!` with name John and company Acme Corp becomes `Hello John, welcome to Acme Corp!`. |
| Strings.Implode | src/MarkdownEmailRenderer.php:107 | `implode` (no contract of its own); for the allow-string it is stated by `AllowStringBracketed` and `AllowStringExample`. |
| Renderer.AllowString | src/MarkdownEmailRenderer.php:107-108 | `"<" + implode("><", tags) + ">"` (no contract of its own); stated by `AllowStringBracketed`, `AllowStringAdmits` and `AllowedIffListed`. |
| Renderer.AllowStringBracketed | src/MarkdownEmailRenderer.php:107-108 | For a non-empty tag list, `"<" + implode("><", tags) + ">"` is each tag in its own angle brackets. |
| Renderer.AllowStringExample | src/MarkdownEmailRenderer.php:107-108 | `p` and `strong` give the allow-string `<p><strong>`. |
| Renderer.AllowStringAdmits | src/MarkdownEmailRenderer.php:107-108 | `<n>` occurs in the lower-cased allow-string exactly when `n` is one of the lower-cased configured names. The only exception is an empty list, whose allow-string `<>` admits only the empty name. |
| Renderer.AllowedIffListed | src/MarkdownEmailRenderer.php:107-108 | A tag passes the filter exactly when its lower-cased name is one of the lower-cased configured names. Both directions are stated, and the empty list is the same special case. |
| Renderer.MarkdownEmailRenderer.SanitizeHtml | src/MarkdownEmailRenderer.php:105-109 | The output's tokens are the input's tokens with the disallowed tags removed. Every text character is kept, in order. Filtering the output again changes nothing. |
| Renderer.MarkdownEmailRenderer.SanitizedTagsListed | src/MarkdownEmailRenderer.php:105-109 | Every tag left after filtering has a configured name. The tags left are exactly the input's allowed tags, in order. |
| FeatureExamples.ScriptDroppedStrongKept | tests/Feature/MarkdownEmailRenderingTest.php:89-108 | With `p` and `strong` allowed, opening and closing `script` tags are dropped and opening and closing `strong` tags are kept. |
| TagScanner.FlattenScan | src/MarkdownEmailRenderer.php:108 | The scanner loses nothing: its tokens spell the input. |
| TagScanner.ScanWellFormed | src/MarkdownEmailRenderer.php:108 | Scanning produces complete tags, text characters, and at most one unterminated tail, which comes last. |
| TagScanner.ScanFlatten | src/MarkdownEmailRenderer.php:108 | Rescanning the string that a well-formed token sequence spells gives back that sequence. |
| TagScanner.FindClose | src/MarkdownEmailRenderer.php:108 | A position it reports lies inside the text, at or after the starting point, and holds a `>`. |
| TagScanner.FindCloseFirst | src/MarkdownEmailRenderer.php:108 | The reported `>` is the first one from the starting point; when nothing is reported, no `>` follows the starting point. |
| TagScanner.FindCloseAt | src/MarkdownEmailRenderer.php:108 | A `>` with no earlier `>` after the starting point is exactly the one reported. |
| TagScanner.FindCloseAbsent | src/MarkdownEmailRenderer.php:108 | Text with no `>` after the starting point yields no closing position. |
| TagScanner.TagName | src/MarkdownEmailRenderer.php:108 | A tag's name is the longest run of name characters (no whitespace, `/`, `<` or `>`) right after the `<` and an optional `/`. It therefore contains no angle bracket. |
| TagScanner.KeepAllowed | src/MarkdownEmailRenderer.php:108 | Every kept token comes from the input, is not an unterminated tail, and is an allowed tag or text. |
| TagScanner.KeepAllowedParts | src/MarkdownEmailRenderer.php:108 | Filtering keeps every text character, in order, and exactly the allowed tags, in order. |
| TagScanner.KeepAllowedIdempotent | src/MarkdownEmailRenderer.php:108 | Filtering a filtered token sequence changes nothing. |
| TagScanner.StripTags | src/MarkdownEmailRenderer.php:108 | Scanning the output gives the filtered tokens of the input. |
| TagScanner.StripTagsKeepsText | src/MarkdownEmailRenderer.php:108 | The text between tags survives unchanged. |
| TagScanner.StripTagsKeepsAllowedTags | src/MarkdownEmailRenderer.php:108 | The tags of the output are exactly the allowed tags of the input, in order. |
| TagScanner.StripTagsOnlyAllowed | src/MarkdownEmailRenderer.php:108 | No disallowed tag remains, and no unterminated tag remains. |
| TagScanner.StripTagsIdempotent | src/MarkdownEmailRenderer.php:108 | Stripping the output again changes nothing. |
| Renderer.MarkdownEmailRenderer.ViewName | src/MarkdownEmailRenderer.php:71 | The view is the requested template when one is given, and the configured base view otherwise. |
| Renderer.MarkdownEmailRenderer.ViewData | src/MarkdownEmailRenderer.php:60-82 | Fails exactly when the converter fails on the markdown substituted as the code does (`Substitute`), with the converter's message. The content is the converter output as is when sanitising is off, and filtered when it is on. The remaining parameters are the template settings, the links and the variables. |
| Renderer.MarkdownEmailRenderer.Render | src/MarkdownEmailRenderer.php:56-87 | Every failure carries the prefix `Failed to render markdown email: `. A converter failure becomes prefix + converter message. Otherwise the result succeeds exactly when the view succeeds, giving the view's document or prefix + the view's message. |
| Renderer.HeaderBreaksDeleted | src/MarkdownEmailRenderer.php:141 | The three `str_replace` passes together delete exactly the characters `\r`, `\n` and `\t`. |
| Renderer.MarkdownEmailRenderer.SanitizeSubject | src/MarkdownEmailRenderer.php:138-145 | The result contains no `\r`, `\n` or `\t`. If the cleaned subject has at most 255 characters, the result is the cleaned subject. Otherwise the result is a prefix of the cleaned subject of at most 255 characters followed by `...`. |
| FeatureExamples.InjectedSubjectCleaned | tests/Feature/MarkdownEmailRenderingTest.php:76-86 | `Test\r\nBcc: hacker@evil.com\r\nSubject: Hacked` becomes `TestBcc: hacker@evil.comSubject: Hacked`. |
| Strings.Limit | src/MarkdownEmailRenderer.php:144 | A value within the limit is returned unchanged. A longer value becomes a prefix of itself, at most `limit` characters long, followed by the end marker. |
| Strings.RTrim | src/MarkdownEmailRenderer.php:144 | The result is the longest prefix that does not end in a whitespace or NUL character. Everything removed is such a character. |
| Strings.ReplaceAllFirstOccurrence | src/MarkdownEmailRenderer.php:95 | `str_replace` replaces the leftmost occurrence and then continues after the inserted text, without rescanning it. |
| Strings.ReplaceCharByEmpty | src/MarkdownEmailRenderer.php:141 | Replacing a one-character search string with the empty string deletes every occurrence of that character. |
| Strings.WithoutCharsThen | src/MarkdownEmailRenderer.php:141 | Deleting one set of characters and then another is the same as deleting their union. |
| Strings.ToLower | src/MarkdownEmailRenderer.php:108 | Keeps the length and maps each character by `LowerChar`, whose contract sends each capital `A`-`Z` to its own lower-case letter and leaves every other character unchanged. |
| Renderer.MarkdownEmailRenderer.Create | src/MarkdownEmailRenderer.php:114-133 | Fails exactly when rendering fails, with the same prefixed error. On success the draft has the sanitised subject, the original unsubstituted markdown, the rendered document, the recipients, the variables, the template name or `base-template`, status `draft`, and no error message or send time. It is saved exactly when email storage is on. |
| Email.MarkdownEmail.constructor | src/MarkdownEmail.php:18-28 | A new record holds exactly the given fillable attributes, and records whether it has been saved. A saved record must carry a status the column admits (database/migrations/2025_07_16_000000_create_markdown_emails_table.php), and the record starts out `Valid()`. |
| Email.MarkdownEmail.MarkAsSent | src/MarkdownEmail.php:54-62 | Keeps `Valid()`. On a saved record the status becomes `sent` and the send time becomes the given time. On a record never saved nothing changes, as Eloquent's `update` does not fill such a record. The error message, the content fields and the saved flag are unchanged. |
| Email.MarkdownEmail.MarkAsFailed | src/MarkdownEmail.php:67-85 | Keeps `Valid()`. On a saved record the status becomes `failed` and the error message becomes the given message. On a record never saved nothing changes. The send time, the content fields and the saved flag are unchanged. |
| Email.MarkedSentFacts | src/MarkdownEmail.php:56-59 | The row marked sent has status `sent` (an admitted status) and a send time. It keeps its error message and its content. |
| Email.MarkedFailedFacts | src/MarkdownEmail.php:69-72 | The row marked failed has status `failed` (an admitted status) and the message. It keeps its send time and its content. |
| Email.WhereStatus | src/MarkdownEmail.php:92 | `where('status', s)` selects exactly the rows whose status is `s`, each as many times as it occurs in the input, and no other row. So it never returns more rows than there are. |
| Email.ScopeSent | src/MarkdownEmail.php:90-93 | Selects exactly the rows whose status is `sent`, each with its multiplicity in the input. |
| Email.ScopeFailed | src/MarkdownEmail.php:98-101 | Selects exactly the rows whose status is `failed`, each with its multiplicity in the input. |
| Email.ScopesDisjoint | src/MarkdownEmail.php:90-101 | No row is in both scopes. |
| Email.ScopesCount | src/MarkdownEmail.php:90-101 | The two scopes together select at most as many rows as there are. |
| Email.ScopeOnePerStatus | tests/Unit/MarkdownEmailTest.php:68-94 | Given a draft, a sent and a failed row, each scope returns exactly the one row with its status. |

## Left out

- Markdown-to-HTML conversion (League CommonMark): a foreign library. It is the abstract `Converter`, which may fail with a message. Only its environment settings are modelled.
- Renderer.MarkdownEmailRenderer.constructor: assumes the environment built at src/MarkdownEmailRenderer.php:30-48 governs conversion, so the converter is handed `ConverterSetup(config)`. Line 50 passes the environment as the second argument of `new CommonMarkConverter([], $environment)`. If the library's constructor takes only a configuration array, PHP drops that argument, and HTML stripping, the unsafe-link guard and the extensions would not apply. The library is not part of this model, so this stays an assumption.
- Blade view rendering (`View::make`, the base template view): templating outside the core. It is the abstract `ViewRenderer`, which receives the parameter bundle and may fail.
- TagScanner.StripTags: models a simplified scanner, not PHP's `strip_tags`. Quoted `>` inside attributes, comments, PHP tags and the builtin's state machine are not modelled. The name checked against the allow-string also differs from PHP's: PHP skips whitespace after `<`, so `< p>` is checked as `<p>`, where `TagName` gives `""`; PHP keeps a `/` that is next to neither `<` nor `>` and any other non-space character, so `<p/x>` is checked as `<p/x>`, where `TagName` gives `p`.
- Strings.Limit: counts characters, not display width as `mb_strwidth` does. The ensures states a bounded prefix rather than naming the right-trimmed 255-character cut.
- Variable values are strings only. Under strict types, a non-string value would raise a `TypeError` that the renderer's `catch` does not handle.
- Variable keys are strings, in map order. PHP's integer keys are not modelled.
- Persistence: Eloquent `save`/`update`, connection and table names, UUIDs and timestamps columns are database plumbing. `Create` reports whether it would save instead, and a record carries that as its saved flag.
- Event dispatch and error logging in `markAsSent`/`markAsFailed`: framework side effects with no bearing on the record's state.
- `now()` is a parameter of `MarkAsSent`: the clock is outside the model.
- Configuration loading and environment variables: the configuration is a value, and the shipped defaults are the constant `DefaultConfig`.
- The database's enforcement of the status enum: stated as the predicate `Valid()` (a saved record's status is draft, sent or failed). The constructor establishes it and both transitions keep it; an unsaved record may hold any status, as nothing checks it before saving.
- The service provider, the factories and the event classes: wiring only.

## Findings

| source | as written | input that shows it | evidently intended | confidence | as-written member | corrected member |
|---|---|---|---|---|---|---|
| src/MarkdownEmailRenderer.php:96 | The second search string is the PHP literal `"{{$key}}"`. PHP reads `{$key}` as interpolation, so the search string is `{key}` with one brace on each side. | markdown `{{name}}` with name = John gives `{John}`; markdown `{name}` gives `John` | `{{name}}` becomes `John`, and single-brace text stays as it is | high; not executed | Renderer.SubstituteKeepsBraces | Renderer.SubstituteIntendedUnspaced |

The operations (`Substitute`, `ReplaceVariables`, `ViewData`, `Render`,
`Create`) follow the code as written, through `Renderer.ReplaceKey`. The
corrected loop is `Renderer.SubstituteIntended`, built on
`Renderer.ReplaceKeyIntended` with the search string `{{key}}`.
