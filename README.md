# Pact Broker: log redaction, UI gate and `alias_method_chain`

This project models three small parts of the Pact Broker and proves properties about them in Dafny.

- **Webhook log redaction** (`RedactLogs`, `redact_logs.dfy`). The broker rewrites the log of a webhook execution before it stores or shows it. Three kinds of substitution run in a fixed order, each on the output of the one before:
  1. Two header rules. On each line, everything after an `Authorization: ` or `Token: ` marker becomes `[REDACTED]`. The marker is matched without regard to letter case and keeps its own casing.
  2. Rewrites supplied by the caller. These are opaque string functions.
  3. One rule per non-blank secret value. Every occurrence of the value, taken left to right and without overlap, becomes `********`.
- **UI authentication gate** (`UIAuthentication`, `ui_authentication.dfy`). A Rack middleware that decides each request. It passes the request to the wrapped application when any of these holds:
  - the path is public (`/auth/...` or `/logout...`);
  - the session holds a user;
  - the credential check accepts the `Authorization` header.

  Otherwise it answers with a fixed 302 redirect to the OpenID Connect login when that is enabled, and a fixed 401 Basic challenge when it is not.
- **`Module#alias_method_chain`** (`AliasMethodChain`, `alias_method_chain.dfy`). The name derivation is pure: strip the feature's trailing `?`/`!`/`=`, split the target into its base and punctuation, and build the `_with_` and `_without_` names. The method-table update is imperative: a `RubyModule` object with a `methods` map that two aliases and a visibility change update in place.

`wrappers.dfy` holds the `Option` type shared by the modules.

## Model

| member | source | states |
|---|---|---|
| RedactLogs.Marker | lib/pact_broker/webhooks/redact_logs.rb:6 | each header marker (`Authorization: `, `Token: `) is non-empty and lies within one line |
| RedactLogs.RedactHeaderFirstMatch | lib/pact_broker/webhooks/redact_logs.rb:6 | on a single line whose first case-insensitive marker match is at `i`, the result is the line up to the end of the marker, in its original casing, followed by `[REDACTED]` |
| RedactLogs.RedactHeaderMatchAtStart | lib/pact_broker/webhooks/redact_logs.rb:6 | a line that starts with the marker, in any case, becomes the marker as written plus `[REDACTED]` |
| RedactLogs.RedactHeaderLineLocal | lib/pact_broker/webhooks/redact_logs.rb:6 | header redaction never crosses a newline: the redaction of `a + "\n" + b` is the redaction of line `a`, the newline, and the redaction of `b` |
| RedactLogs.RedactHeaderLineLocalMatch | lib/pact_broker/webhooks/redact_logs.rb:6 | the case of line locality where the marker starts the text: the rest-of-line rewrite stops at the first newline |
| RedactLogs.RedactHeaderAtNewline | lib/pact_broker/webhooks/redact_logs.rb:6 | a newline is copied and redaction resumes on the next line |
| RedactLogs.RedactHeaderWithoutMarker | lib/pact_broker/webhooks/redact_logs.rb:6 | text with no case-insensitive occurrence of the marker is left unchanged |
| RedactLogs.FromNewlineIsRestOfLine | lib/pact_broker/webhooks/redact_logs.rb:6 | what `(.*)` leaves behind is a suffix of the text, and everything it consumed holds no newline |
| RedactLogs.FromNewlineOfLine | lib/pact_broker/webhooks/redact_logs.rb:6 | `(.*)` consumes a whole line and stops exactly at its newline |
| RedactLogs.PrefixCIWithinLine | lib/pact_broker/webhooks/redact_logs.rb:6 | a single-line marker that matches at the start of `a + "\n" + b` already matches within the first line `a` |
| RedactLogs.LowerNewline | lib/pact_broker/webhooks/redact_logs.rb:6 | case folding (the `/i` flag) maps a newline only to itself and nothing else to a newline |
| RedactLogs.ValueSubstitutions | lib/pact_broker/webhooks/redact_logs.rb:22-24 | exactly the non-blank values get a substitution, each with replacement `********`; blank values get none |
| RedactLogs.ValueSubstitutionsAppend | lib/pact_broker/webhooks/redact_logs.rb:22-24 | `select`/`collect` keeps the order and number of values: the substitutions for `a + b` are those for `a` followed by those for `b` |
| RedactLogs.ValueSubstitutionsOne | lib/pact_broker/webhooks/redact_logs.rb:23 | one value gives exactly `[value, "********"]` when it is not blank and nothing when it is; with the lemma above, this fixes the whole list |
| RedactLogs.ReplaceAllFirstOccurrence | lib/pact_broker/webhooks/redact_logs.rb:17-18 | `gsub` with a non-empty literal value keeps the text before the leftmost occurrence, replaces that occurrence by the replacement, and goes on just after it; with `ReplaceAllWithoutOccurrence` this describes the whole result |
| RedactLogs.ReplaceAllWithoutOccurrence | lib/pact_broker/webhooks/redact_logs.rb:17-19 | `gsub` of a value that does not occur leaves the text unchanged |
| RedactLogs.ReplaceAllRemoves | lib/pact_broker/webhooks/redact_logs.rb:17-24 | after replacing a non-empty value that has no `*` by `********`, the value no longer occurs |
| RedactLogs.ReplaceAllKeepsAbsent | lib/pact_broker/webhooks/redact_logs.rb:17-24 | masking one value never creates an occurrence of another value that has no `*` |
| RedactLogs.ReplaceEmptyKeepsAbsent | lib/pact_broker/webhooks/redact_logs.rb:17-24 | the same when the pattern is empty, which Ruby's `gsub` handles by inserting the mask before every character |
| RedactLogs.ReplaceNonEmptyKeepsAbsent | lib/pact_broker/webhooks/redact_logs.rb:17-24 | the same for a non-empty pattern |
| RedactLogs.MaskFreePrefix | lib/pact_broker/webhooks/redact_logs.rb:17-24 | a text with no `*` that starts the masked output also starts the input |
| RedactLogs.PatternRules | lib/pact_broker/webhooks/redact_logs.rb:15 | the caller's patterns become rules of the same number and order |
| RedactLogs.LiteralRules | lib/pact_broker/webhooks/redact_logs.rb:15 | the value substitutions become literal rules of the same number and order |
| RedactLogs.ApplyAllAppend | lib/pact_broker/webhooks/redact_logs.rb:15-19 | folding a concatenation of rule lists applies the first list, then the second to its output |
| RedactLogs.PatternRulesApply | lib/pact_broker/webhooks/redact_logs.rb:15-19 | the fold over pattern rules applies each caller rewrite in order |
| RedactLogs.LiteralRulesApply | lib/pact_broker/webhooks/redact_logs.rb:15-19 | the fold over literal rules applies each value replacement in order |
| RedactLogs.CallStages | lib/pact_broker/webhooks/redact_logs.rb:14-20 | the result is the value stage applied to the pattern stage applied to the header stage (the order is fixed) |
| RedactLogs.CallHeadersOnly | lib/pact_broker/webhooks/redact_logs.rb:15 | with only blank values and no patterns, the result is the two header rules alone |
| RedactLogs.ApplyPatternsFixed | lib/pact_broker/webhooks/redact_logs.rb:17-19 | patterns that leave a text as it is leave it as it is in sequence too |
| RedactLogs.ApplyReplacementsAbsent | lib/pact_broker/webhooks/redact_logs.rb:17-19 | replacements whose values all do not occur leave the text unchanged |
| RedactLogs.CallUnchanged | lib/pact_broker/webhooks/redact_logs.rb:14-20 | a log with no header marker, no pattern change and no non-blank value in it is returned unchanged |
| RedactLogs.ApplyReplacementsKeepsAbsent | lib/pact_broker/webhooks/redact_logs.rb:17-24 | a sequence of maskings never introduces a value without `*` |
| RedactLogs.ApplyReplacementsHides | lib/pact_broker/webhooks/redact_logs.rb:17-24 | once a value has been masked, later maskings do not bring it back |
| RedactLogs.CallHidesValues | lib/pact_broker/webhooks/redact_logs.rb:14-24 | no non-blank secret value that has no `*` occurs anywhere in the redacted log, whatever the patterns did before |
| RedactLogs.RedactLogs | lib/pact_broker/webhooks/redact_logs.rb:10-12 | the instance method returns exactly what `RedactLogs.call` returns; the patterns default to none in both |
| UIAuthentication.Call | lib/rack/pact_broker/ui_authentication.rb:13-21 | an allowed request gets the application's response; a denied one gets the redirect when OIDC is enabled and the Basic challenge otherwise |
| UIAuthentication.PublicPathBypassesChecks | lib/rack/pact_broker/ui_authentication.rb:23-24 | a public path reaches the application with its env unchanged, whatever the session and the credential check say |
| UIAuthentication.SessionUserAllows | lib/rack/pact_broker/ui_authentication.rb:25 | a session holding a user is let through, whatever its credentials |
| UIAuthentication.NoSessionFallsToCredentials | lib/rack/pact_broker/ui_authentication.rb:23-35 | with no public path and no session user (missing session or missing `:user`), the request is allowed exactly when the credential check accepts `HTTP_AUTHORIZATION` |
| UIAuthentication.DeniedResponses | lib/rack/pact_broker/ui_authentication.rb:16-19 | a denied request gets an empty body and exactly `302` with `Location: /auth/openid_connect`, or `401` with `WWW-Authenticate: Basic realm="Restricted Area"` |
| UIAuthentication.RedirectTargetIsPublic | lib/rack/pact_broker/ui_authentication.rb:17-30 | the redirect target is public, so following it is always let through |
| UIAuthentication.PublicPrefixes | lib/rack/pact_broker/ui_authentication.rb:30 | `/auth` without a slash and `/authors` are not public; `/logout-everywhere` is |
| UIAuthentication.AllowedIsMonotone | lib/rack/pact_broker/ui_authentication.rb:23-26 | a check that accepts more headers lets through at least as many requests |
| AliasMethodChain.StripPunctuation | lib/pact_broker/patches/alias_method_chain.rb:5 | the result is a prefix of the feature shorter by at most one character, and by one exactly when the feature ends in `?`, `!` or `=` |
| AliasMethodChain.SplitTarget | lib/pact_broker/patches/alias_method_chain.rb:7 | base plus punctuation (empty when absent) is the target; punctuation is present exactly when the target ends in one, and it is a punctuation mark |
| AliasMethodChain.NamesShape | lib/pact_broker/patches/alias_method_chain.rb:10-11 | `with = base + "_with_" + feature + punct`, `without = base + "_without_" + feature + punct`, and the target, `with` and `without` are pairwise distinct |
| AliasMethodChain.NamesDetermineFeature | lib/pact_broker/patches/alias_method_chain.rb:10 | for a fixed target, two features with the same `with` name agree once their trailing punctuation is stripped |
| AliasMethodChain.PredicateTargetNames | lib/pact_broker/patches/alias_method_chain.rb:5-11 | target `valid?` with feature `check` gives `valid_with_check?` and `valid_without_check?` |
| AliasMethodChain.BangFeatureNames | lib/pact_broker/patches/alias_method_chain.rb:5-11 | target `save` with feature `audit!` gives `save_with_audit` and `save_without_audit` |
| AliasMethodChain.RubyModule.AliasMethod | lib/pact_broker/patches/alias_method_chain.rb:13-14 | the new name gets a copy of the old entry and nothing else changes; an undefined old name raises `NameError` and leaves the table as it was |
| AliasMethodChain.RubyModule.SetVisibility | lib/pact_broker/patches/alias_method_chain.rb:16-23 | only the named entry's visibility changes; an undefined name raises `NameError` |
| AliasMethodChain.RubyModule.AliasMethodChain | lib/pact_broker/patches/alias_method_chain.rb:3-24 | the block runs first on (base, punct); then on success `without` holds the original target, `target` holds the `with` implementation with the original's visibility, and no other entry changes; a missing target fails with no change, and a missing `with` fails after `without` is created |

## Left out

- The version listing, filtering, pagination and batched enrichment engine: its implementation is not part of this model, and only its HTTP feature tests exist.
- The query-counting instrumentation in the feature tests: it is test-only patching of a database logging hook.
- The regular expression engine. Caller `pattern_substitutions` are opaque `string -> string` functions. The two header rules are modelled directly as a line-local, case-insensitive "marker, then the rest of the line" rewrite.
- RedactLogs.Lower: the `/i` flag is modelled with ASCII case folding only. Unicode case folding is not modelled.
- RedactLogs.NotBlank: `not_blank?` comes from a string refinement that is not part of this model. It is modelled as "contains a character other than space, tab, newline, carriage return, form feed or vertical tab". Unicode whitespace is not modelled.
- RedactLogs.CallHidesValues: the guarantee requires the value to contain no `*`. A value made of or containing asterisks can be reassembled from the eight-asterisk mask, so it is not promised to be absent.
- Logs are `seq<char>`. Byte encodings and invalid strings are not modelled.
- `authenticated?` (the broker's credential check, not part of this model) is a function parameter over the `Authorization` header. `PactBroker.configuration.oidc_enabled` is a boolean parameter.
- The `^` anchors in `ui_authentication.rb:30` and the `$` anchors in `alias_method_chain.rb:5,7` match at any line boundary in Ruby. Paths and method names are assumed to hold no newline, so plain prefix and suffix tests are used. A missing `PATH_INFO` is not modelled; the path is a string.
- The wrapped application is a function from env to response. Its side effects are not modelled.
- AliasMethodChain.RubyModule.AliasMethodChain: the method table is the module's own flat table. Methods inherited from ancestors, which `alias_method` and `*_method_defined?` also see, are not modelled. An exception raised by the block is not modelled; the block is a function from (base, punct, table) to table.
- The `unless Module.method_defined?(:alias_method_chain)` guard at `alias_method_chain.rb:1` only decides whether the helper is installed, so it is not modelled.
- `lib/pact_broker/ui/controllers/sessions.rb` is not modelled: its Sinatra route handlers work through framework helpers.
- The database migrations, the C# samples, and the middleware and publishing tests are not modelled: they are schema definitions, sample clients and wiring, not part of this core.
