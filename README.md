# Scramble's OpenAPI generator, modelled in Dafny

Scramble generates an OpenAPI 3.1.0 document for a Laravel application. Its
`Generator` class does four things:

- It keeps the routes to document. Routes named `api-docs...` are dropped.
  A route is kept when it runs the `api` middleware group, or, when a custom
  route resolver is set, when that resolver accepts it.
- It turns each class-based route into an Operation. The HTTP method comes
  from the route's first method. The tags are the controller's `@tags`
  followed by the class basename without `Controller`. The path parameters
  are resolved from the route's placeholders and the handler's signature and
  doc comment. The parameters read from the validation rules become query
  parameters on a GET route and the properties of a JSON request body on
  any other route. A non-GET route whose rule extraction succeeds without
  rules gets an empty JSON object body instead. When rule extraction fails,
  nothing is added and the description carries a warning. The responses are
  appended. The summary is trimmed of trailing periods.
- It interprets validation rules. Each field's rule tokens become one query
  parameter with a kind, a nullable flag, a required flag, an enum and
  numeric bounds.
- It files each operation under the route URI. Each placeholder name is
  replaced by its alias with `str_replace` over the whole URI, so literal
  text containing the name is rewritten too (see Findings). Every `api/` is
  then removed.

The project has one module per concern:

- `Text`: the PHP and Laravel string functions that are used, with their
  exact semantics.
- `Seqs`: first and last match in a collection.
- `Schema`: the schema and parameter objects.
- `Rules`: the validation-rule interpreter.
- `PathParameters`: the alias map and path-parameter resolution.
- `RoutePaths`: the path an operation is filed under, as written and as
  corrected.
- `Routes`: the route records and the route filter.
- `Operations`: the `Operation` class and `routeToOperation`.
- `Generator`: the `Document` class and `__invoke`.

The state-changing parts are classes with `modifies` clauses:

- An `Operation` is built by successive calls on a fresh object.
- The document accumulates one path entry per call.

Each method is proved against a specification function. That function's
properties are proved as lemmas.

What the router, reflection, the doc-comment parser and the two extractors
would report is given as fields of the `Route` and `Handler` values:

- the route's methods, URI, placeholder names, name and middleware
- the handler's class name, class `@tags`, signature parameters and doc tags
- the rule mapping, or the message of the exception the rule extractor threw
- the responses

The application name and `url('/api')` are parameters of `Generate`.

Three behaviours of the code are easy to misread:

- A custom route resolver replaces the `api` middleware test; it is not
  added to it.
- When rule extraction throws, the exception is caught before the default
  body would be added. A failing non-GET route therefore gets no body.
- The path is renamed with `str_replace` over the whole URI, not only in its
  placeholders. The placeholder-only renaming the code evidently means is
  modelled beside it and related to it.

Minimum and maximum are read when the type is an `instanceof NumberType`.
Whether an `integer` field's `IntegerType` is one depends on a class that is
not part of this model. The constant `IntegerIsNumber` leaves the answer
open, and both cases are proved.

## Model

| member | source | states |
|---|---|---|
| `Seqs.FirstWhere` | src/Generator.php:271 | the result is absent exactly when nothing matches; otherwise it is an element that matches and is preceded by no match (`Collection::first`) |
| `Seqs.LastWhere` | src/Generator.php:182-184 | the result is absent exactly when nothing matches; otherwise it is a matching element followed by no match (`keyBy` keeps the last) |
| `Seqs.FirstWhereSkips` | src/Generator.php:285-290 | inserting a non-matching element anywhere leaves the first match unchanged |
| `Text.Split` | src/Generator.php:156 | `explode` always yields at least one piece |
| `Text.SplitThenJoin` | src/Generator.php:156 | joining the pieces of `explode` with the separator gives the string back |
| `Text.JoinThenSplit` | src/Generator.php:156 | `explode` of pieces joined with a separator they do not contain gives the pieces back |
| `Text.SplitWithoutSeparator` | src/Generator.php:249 | a string without the separator explodes to itself alone |
| `Text.SplitAtSeparator` | src/Generator.php:249 | the first separator ends the first piece |
| `Text.SplitLast` | src/Generator.php:103 | the last piece is the text after the last separator |
| `Text.TrimLeft` | src/Generator.php:276 | the result is a suffix, only the character was dropped, and it does not start with the character |
| `Text.TrimRight` | src/Generator.php:137 | the result is a prefix, only the character was dropped, and it does not end with the character |
| `Text.ReplaceAllAbsent` | src/Generator.php:145 | `str_replace` of an absent search string returns the subject unchanged |
| `Text.ReplaceAllSelf` | src/Generator.php:145 | replacing a string by itself changes nothing |
| `Text.ReplaceAllRemovesChar` | src/Generator.php:228 | replacing a character by text without it leaves no occurrence |
| `Text.ReplaceAllChars` | src/Generator.php:228 | every output character comes from the subject or the replacement |
| `Text.LowerHasNoUpper` | src/Generator.php:228 | `strtolower` leaves no upper-case ASCII letter |
| `Text.ContainsChar` | src/Generator.php:228 | a one-character string occurs exactly when the character does |
| `Text.ReplaceAllSkipsPrefix` | src/Generator.php:145 | text in which no occurrence starts passes through `str_replace` unchanged |
| `Text.ReplaceCharOnce` | src/Generator.php:228 | a character occurring once is replaced at that place only |
| `Text.NoStraddle` | src/Generator.php:145 | no occurrence starts in text that lacks it when the following text opens with a character the search string has only at its start |
| `Text.MissingCharNotContained` | src/Generator.php:48 | a string lacking one of the search string's characters does not contain it |
| `Rules.BoundOf` | src/Generator.php:285-290 | a bound, when set, is truthy (neither empty nor "0") |
| `Rules.ParamFromTokens` | src/Generator.php:248-297 | a query parameter with the field's name and no description; required iff `required` occurs; nullable iff `nullable` occurs; the kind is `KindOf` of the tokens; the enum is the first `in:` token's values, empty iff there is none; bounds only when the type is an `instanceof NumberType`, and there the first `min:`/`max:` token's truthy suffix |
| `Rules.ParamsFromRules` | src/Generator.php:239-300 | no mapping gives no parameters; otherwise one query parameter per field, named after it, in the mapping's order |
| `Rules.FlagsIgnoreOrder` | src/Generator.php:259-282 | kind, nullable and required depend only on the multiset of tokens |
| `Rules.KindPrecedence` | src/Generator.php:259-269 | an `exists:...,id` token gives Integer; otherwise `bool`/`boolean` gives Boolean, else `numeric` gives Number, else `integer`/`int` gives Integer, else String |
| `Rules.IntegerIgnoresMin` | src/Generator.php:259-291 | `required|integer|min:<n>` gives a required Integer, with no minimum when `IntegerType` is not a `NumberType` |
| `Rules.IntegerTakesMin` | src/Generator.php:259-291 | when `IntegerType` is a `NumberType`, `required|integer|min:<n>` gives a required Integer with minimum `<n>` (truthy, without `min:` inside) |
| `Rules.KindOfMembership` | src/Generator.php:259-269 | token lists with the same members get the same kind |
| `Rules.SameReadings` | src/Generator.php:255-296 | the parameter is determined by the kind, the two flags, the enum and the two bounds |
| `Rules.EnumSkips` | src/Generator.php:271 | a token that is not an `in:` token does not change the enum |
| `Rules.BoundSkips` | src/Generator.php:285-290 | a token not starting with the key does not change the bound |
| `Rules.NullableAddsNoMember` | src/Generator.php:280 | an extra `nullable` where one occurs keeps kind, nullable and required |
| `Rules.NullableIdempotent` | src/Generator.php:280-282 | inserting a second `nullable` anywhere gives the same parameter |
| `Rules.FirstBoundTokenWins` | src/Generator.php:285-290 | the first token starting with `min:`/`max:` decides the bound, its suffix taken as is |
| `Rules.NoBoundWithoutToken` | src/Generator.php:285-290 | with no token starting with the key there is no bound |
| `Rules.Escape` | src/Generator.php:276 | quote-doubling never shortens the value, keeps whether it starts or ends with a quote, and adds only quotes |
| `Rules.EscapeQuoteFree` | src/Generator.php:276 | a value without quotes is its own escape |
| `Rules.QuoteWithoutQuotes` | src/Generator.php:276 | a value without quotes is quoted by wrapping it |
| `Rules.CollapseAfterEscape` | src/Generator.php:276 | collapsing `""` to `"` undoes quote-doubling |
| `Rules.DecodeQuoted` | src/Generator.php:276 | `trim('"')` then the collapse decodes a quoted encodable value to itself |
| `Rules.JoinAvoids` | src/Generator.php:274 | joining pieces without a character gives a string without it |
| `Rules.QuotedSeparatorFree` | src/Generator.php:274 | quoted encodable values contain no comma and no line feed |
| `Rules.EncodedIsInRule` | src/Generator.php:271 | an encoded `in:` token heading the list is the one the enum reads |
| `Rules.EncodedSplits` | src/Generator.php:272-274 | the text after `in:` splits into the quoted values |
| `Rules.EnumRoundTrip` | src/Generator.php:271-278 | decoding an encoded `in:` token gives back the values, in order and with duplicates |
| `Rules.DecodeUnquoted` | src/Generator.php:276 | a literal without quotes decodes to itself |
| `Rules.PlainEnumRoundTrip` | src/Generator.php:271-278 | the unquoted form `in:a,b` of values without commas, quotes or line feeds decodes to the values, in order |
| `PathParameters.Bindable` | src/Generator.php:162-172 | exactly the parameters that are not Request-typed, none added |
| `PathParameters.BindableConcat` | src/Generator.php:162-172 | the filter works element by element and keeps the order: filtering a concatenation concatenates the filtered parts |
| `PathParameters.BindableOne` | src/Generator.php:162-172 | one parameter is kept iff it is not Request-typed |
| `PathParameters.Lookup` | src/Generator.php:194 | absent exactly when the key has no entry |
| `PathParameters.PutLookup` | src/Generator.php:180 | after `$m[$k] = $v`, `$k` reads `$v` and every other key reads what it read before |
| `PathParameters.PutKeys` | src/Generator.php:180 | an existing key keeps its place; a new key is added at the end |
| `PathParameters.PutDistinct` | src/Generator.php:180 | the assignment keeps the keys distinct |
| `PathParameters.PutAppends` | src/Generator.php:180 | a new key's entry is appended |
| `PathParameters.PutAppendsFrom` | src/Generator.php:180 | an array none of whose keys is the new key gets the entry appended |
| `PathParameters.IdentityPut` | src/Generator.php:177-180 | assigning a key to itself keeps an identity array an identity array |
| `PathParameters.ZipKeys` | src/Generator.php:180 | `mapWithKeys` gives one entry per distinct placeholder, and exactly the placeholders as keys |
| `PathParameters.ZipLookup` | src/Generator.php:180 | a placeholder reads the value paired with its last occurrence |
| `PathParameters.ZipDistinct` | src/Generator.php:180 | with distinct placeholders the map is the positional pairing |
| `PathParameters.AliasMapKeys` | src/Generator.php:176-180 | the alias map has distinct keys, exactly the placeholders, and one entry each when they are distinct |
| `PathParameters.AliasMapFallsBackToIdentity` | src/Generator.php:176-178 | when the counts differ, every placeholder is its own alias |
| `PathParameters.IdentityZip` | src/Generator.php:177-180 | pairing the names with themselves gives the identity map |
| `PathParameters.AliasMapPositional` | src/Generator.php:162-180 | with matching counts and distinct placeholders, placeholder i is renamed to the i-th non-Request parameter |
| `PathParameters.UcWordsFrom` | src/Generator.php:228 | `ucwords` keeps the length |
| `PathParameters.Humanize` | src/Generator.php:228 | the humanized name contains no `-`, no `_` and no upper-case letter |
| `PathParameters.HumanizeLowerWord` | src/Generator.php:228 | a lower-case word is humanized to itself |
| `PathParameters.HumanizeCamel` | src/Generator.php:228 | a camel-case name of two lower-case words (`userId`) becomes the two words separated by a space (`user id`) |
| `PathParameters.HumanizeSnake` | src/Generator.php:228 | a snake-case name of two lower-case words (`post_id`) becomes the two words separated by a space (`post id`) |
| `PathParameters.SnakeCamel` | src/Generator.php:228 | `Str::snake` puts the delimiter before the capital of a two-word camel-case name and lower-cases it |
| `PathParameters.SnakeUnderscore` | src/Generator.php:228 | `Str::snake` keeps a two-word snake-case name |
| `PathParameters.DelimitBefore` | src/Generator.php:228 | the delimiter goes before a capital that follows text without capitals |
| `PathParameters.ResolveParam` | src/Generator.php:193-234 | a path parameter named by the alias, with `Parameter::make`'s default required flag, plain and without enum |
| `PathParameters.RoutePathParameters` | src/Generator.php:159-237 | the alias map, and one path parameter per placeholder, in order: the parameter `ResolveParam` gives for that placeholder's alias |
| `PathParameters.TypePriority` | src/Generator.php:199-216 | a signature type decides the kind, whatever the doc says |
| `PathParameters.DocTypeWhenSignatureUntyped` | src/Generator.php:199-208 | without a signature type, the last `@param` type for the name decides the kind |
| `PathParameters.UntypedIsString` | src/Generator.php:225 | with no type at all the kind is String |
| `PathParameters.UnknownTypeIsIdentifier` | src/Generator.php:219-229 | a type outside the table gives Integer and "The ... ID" unless the doc has a description |
| `PathParameters.KnownTypeKeepsDescription` | src/Generator.php:219-227 | a type from the table gets the table's kind and keeps the doc description |
| `PathParameters.ModelBoundPlaceholder` | src/Generator.php:159-237 | `{user}` bound to a model gives one Integer path parameter described "The user ID" |
| `RoutePaths.ReplaceEachIdentity` | src/Generator.php:145 | with the identity alias map the URI is unchanged |
| `RoutePaths.ReplaceEachSingle` | src/Generator.php:145 | with one alias the substitution is a single `str_replace` |
| `RoutePaths.LiteralTextRenamed` | src/Generator.php:145 | as written, `posts/{post}` with alias `post => id` becomes `ids/{id}` |
| `RoutePaths.IndexOf` | src/Generator.php:145 | the position of the first occurrence |
| `RoutePaths.RenameSegments` | src/Generator.php:145 | placeholders take their alias and keep their optional mark; literal text is unchanged |
| `RoutePaths.RenameLiteralPrefix` | src/Generator.php:145 | literal text without `{` passes through the renaming |
| `RoutePaths.RenameBraced` | src/Generator.php:145 | a braced placeholder is renamed as a unit |
| `RoutePaths.BraceSplit` | src/Generator.php:145 | a URI opening with a closed brace pair is that pair, with no `}` inside, followed by the rest |
| `RoutePaths.RenameHoleOf` | src/Generator.php:145 | the text inside braces takes the alias and keeps a trailing `?` |
| `RoutePaths.RenameOnePlaceholder` | src/Generator.php:145 | one placeholder at the front is replaced by its alias |
| `RoutePaths.RenameOnlyPlaceholders` | src/Generator.php:145 | on any template, the corrected renaming equals the template-level renaming |
| `RoutePaths.RenameIdentity` | src/Generator.php:145 | with the identity alias map the corrected renaming changes nothing |
| `RoutePaths.RenameHoleIdentity` | src/Generator.php:145 | with the identity map a placeholder's inner text is unchanged |
| `RoutePaths.IdentityLookup` | src/Generator.php:194 | in an identity map every key reads itself |
| `RoutePaths.PlaceholderAfterLiteral` | src/Generator.php:145 | after literal text, only the placeholder is renamed |
| `RoutePaths.PlaceholderAlone` | src/Generator.php:145 | a lone placeholder takes its alias |
| `RoutePaths.PlaceholderRenamed` | src/Generator.php:145 | corrected, `posts/{post}` with alias `post => id` becomes `posts/{id}` |
| `RoutePaths.ReplaceAgreesWithRename` | src/Generator.php:145 | when the name does not occur in the literal text before its placeholder, `str_replace` renames just the placeholder, as the corrected renaming does |
| `RoutePaths.ReplaceAllPlaceholder` | src/Generator.php:145 | `str_replace` on a lone placeholder renames its name and keeps the braces |
| `RoutePaths.StripApiPrefix` | src/Generator.php:48 | a leading `api/` is removed; a path without `api/` is kept |
| `RoutePaths.StripApiInside` | src/Generator.php:48 | an `api/` after other text is removed as well, the text before it kept (`v1/api/users` becomes `v1/users`) |
| `Routes.FilterRoutes` | src/Generator.php:69-81 | a route is kept iff it is admitted; none is added |
| `Routes.FilterConcat` | src/Generator.php:69-81 | the filter keeps the routes' relative order |
| `Routes.FilterIdempotent` | src/Generator.php:69-81 | filtering twice is filtering once |
| `Routes.ResolverReplacesMiddleware` | src/Generator.php:75-79 | with a resolver, admission is the resolver's answer; without one, it is `api` middleware membership |
| `Routes.DocsRoutesDropped` | src/Generator.php:72-74 | a route named `api-docs...` is never kept |
| `Operations.Operation.constructor` | src/Generator.php:100 | a new operation has the method and is otherwise empty |
| `Operations.Operation.SetTags` | src/Generator.php:101-104 | replaces the tags, nothing else |
| `Operations.Operation.AddParameters` | src/Generator.php:105 | appends the parameters, nothing else |
| `Operations.Operation.AddRequestBodyObject` | src/Generator.php:111-125 | sets the request body, nothing else |
| `Operations.Operation.AddResponse` | src/Generator.php:133 | appends the response, nothing else |
| `Operations.Operation.SetSummary` | src/Generator.php:137 | sets the summary, nothing else |
| `Operations.Operation.SetDescription` | src/Generator.php:138 | sets the description, nothing else |
| `Operations.ComposeRequest` | src/Generator.php:107-129 | rule parameters become query parameters on GET and a JSON body otherwise; the default empty body for non-GET; a failure only extends the description |
| `Operations.AddResponses` | src/Generator.php:131-134 | the responses are appended in order |
| `Operations.Assemble` | src/Generator.php:100-138 | a fresh operation whose value is the specified one |
| `Operations.RouteToOperation` | src/Generator.php:83-148 | nothing for a closure route; otherwise a fresh operation equal to the specification, and the URI with each placeholder name replaced by its alias all over it |
| `Operations.GetRulesBecomeQuery` | src/Generator.php:109-116 | on GET the rule parameters follow the path parameters as query parameters, with no body |
| `Operations.OtherRulesBecomeBody` | src/Generator.php:109-125 | otherwise the rule parameters are the JSON body's properties, with an empty object when there are no rules |
| `Operations.FailureBecomesWarning` | src/Generator.php:107-129 | a failed extraction adds no parameters and no body and appends the warning and the message |
| `Operations.PathParametersFirst` | src/Generator.php:98-105 | one path parameter per placeholder comes first |
| `Operations.TagsFromClassDoc` | src/Generator.php:101-104 | comma-free tag names in the first `@tags` come back in order, followed by the controller tag |
| `Operations.ControllerTagOfNamespacedClass` | src/Generator.php:103 | the controller tag is the basename after the last `\` with `Controller` removed |
| `Operations.SummaryTrimmed` | src/Generator.php:137 | the summary is the doc summary less its trailing periods, and trimming again changes nothing |
| `Generator.Document.constructor` | src/Generator.php:59-67 | version 3.1.0, the title, info version 0.0.1, one server, no paths |
| `Generator.Document.AddPath` | src/Generator.php:47-49 | appends one path entry |
| `Generator.DocumentPaths` | src/Generator.php:44-50 | at most one entry per route |
| `Generator.DocumentPathsConcat` | src/Generator.php:44-50 | the entries of consecutive route lists are consecutive |
| `Generator.ClosureRouteSkipped` | src/Generator.php:46 | a closure route leaves no entry |
| `Generator.OneEntryPerClassRoute` | src/Generator.php:44-50 | class-based routes contribute exactly one entry each |
| `Generator.EntryInPlace` | src/Generator.php:44-50 | a class-based route's entry sits between its neighbours' entries |
| `Generator.LastEntry` | src/Generator.php:44-50 | a class-based last route's entry comes last |
| `Generator.NextRoute` | src/Generator.php:44-50 | one more route appends its entry, if it has one |
| `Generator.AddEntry` | src/Generator.php:47-49 | `addPath` extends the document's entries by one |
| `Generator.AddRoute` | src/Generator.php:45-49 | a class-based route adds its entry, the `str_replace`-renamed URI without `api/` and the operation; a closure route adds nothing |
| `Generator.Generate` | src/Generator.php:38-81 | a fresh 3.1.0 document with info version 0.0.1 whose entries are, in order, for each admitted class-based route, the `str_replace`-renamed URI without `api/` and the operation |

## Left out

- Hooks are not modelled: the OpenAPI extender (`Scramble::$openApiExtender`, lines 52-54) and the operation resolver (`Scramble::$operationResolver`, lines 140-142). They run code this model cannot see.
- The identifier type handler registration (lines 91-96) is left out: it affects only later type inference, not the operation.
- The document's `components` object and the registration of the components repository for complex types (line 42) are left out. Neither changes the paths or the operations.
- Routing, reflection, the doc-comment parser and both rule extractors are not modelled. What they report is input data (lines 85, 131, 302-314). The route facade is the `routes` parameter.
- `config('app.name')` and `url('/api')` are parameters of `Generate`.
- `toArray` and the serialization of the document are left out (line 56).
- `addPath` merging of several operations under one path is left out. The document keeps one entry per `addPath` call, in order.
- A rule object's `__toString` (line 251) is left out: rule tokens are strings.
- Non-string tokens, which fail the `is_string` tests, are left out.
- The `(float)` casts of `min`/`max` are left out. A bound is kept as the text that would be cast (lines 286, 289).
- `Str::snake` is modelled on ASCII only. Unicode case mapping and Unicode whitespace are left out.
- `class_basename` is modelled as the part after the last `\`. Its treatment of `/` is left out.
- The rule mapping is an ordered list of fields. A PHP array cannot repeat a key, and the model does not forbid it.
- An exception thrown anywhere but the rule extractors is left out. The routes are assumed to produce their operations.
- `Rules.ParamFromTokens`: whether an `integer` field gets bounds depends on whether `IntegerType` extends `NumberType`. That class is not part of this model, so `IntegerIsNumber` is left open.
- `PathParameters.ResolveParam`: `Parameter::make` is not part of this model, so the required flag a path parameter gets from it is unknown. It is the constant `PathRequiredDefault`, whose value the model leaves open.
- `Generator.DocumentPaths`: its own contract states only the length bound. The entries are stated by `EntryInPlace`, `ClosureRouteSkipped` and `OneEntryPerClassRoute`.

## Findings

| source | as written | input that shows it | evidently intended | confidence | as-written member | corrected member |
|---|---|---|---|---|---|---|
| src/Generator.php:145 | `Str::replace` of the alias names over the whole URI also rewrites occurrences of a placeholder name inside literal segments | `posts/{post}` handled by `show(Post $id)` gives the alias `post => id` and the path `ids/{id}` | only the placeholders are renamed: `posts/{id}` | not executed | `RoutePaths.LiteralTextRenamed` | `RoutePaths.RenameOnlyPlaceholders` |
