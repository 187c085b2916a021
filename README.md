# Software installation handler, modelled in Dafny

This project models the install path of the web panel's `software.go`. An
operator picks a registered server and names a package: either a catalog entry
(`common`) or a free-text name (`custom`). The handler then does four things:

1. It validates the form in a fixed order.
2. It resolves the install command. A catalog name is looked up in
   `commonSoftware`. A custom name is trimmed, stripped of shell
   metacharacters by `sanitizePackageName` and reduced to its first word.
3. It builds the shell script for the target:
   - a `root` login gets `apk update && ` followed by the command, with
     `apt install -y` rewritten to `apk add`;
   - any other login gets the password-fed `sudo -S` wrapper, with `apk add`
     rewritten back to `apt install -y`.
4. It renders the installation log from the remote call's output and error.

Each part of the handler is one module:

- `GoStrings`: the Go standard-library functions the handler relies on.
  These are `strings.ReplaceAll`, `strings.TrimSpace` and `strings.Fields`,
  plus `unicode.IsSpace` with its exact character set.
- `Sanitizer`: `sanitizePackageName`.
- `Catalog`: the `Software` record, the ten-entry catalog and the lookup loop.
- `Composer`: the script builder.
- `Reporter`: the log builder.
- `Handler`: the request handler, from the submitted form up to the call to
  `runRemoteCommand`.

The loop-and-builder code is written as methods: `SanitizePackageName`,
`FindCommand`, `BuildScript`, `RenderLog` and `InstallSoftware`. Each method is
proved equal to a pure function (`Sanitize`, `Lookup`, `Compose`, `Log`,
`Handle`). The properties are lemmas about those functions.

Two behaviours of the code are easy to misread, and the model keeps both as
written:

- **An empty sanitised name is sent anyway.** One might expect a custom name
  that sanitises to nothing to be rejected; the code does not reject it. The
  emptiness check runs on the trimmed input, before sanitising, so a custom
  name such as `;` passes it and produces the bare command `apt install -y `
  (see `Handler.OnlySeparatorsStillSent`).
- **The order of the token list matters**, even though the deletions look
  order-free. `&&` is deleted before `|`, so `&|&` becomes `&&`. Both orders
  are proved in `Sanitizer.DeletionOrderMatters`, and
  `Sanitizer.AmpersandsCanSurvive` shows that `&&` can come out of
  `sanitizePackageName`. Input made only of whole tokens and white space,
  `&&` included, still sanitises to nothing (`Sanitizer.FullyDisallowedGivesEmpty`).

## Model

| member | source | states |
|---|---|---|
| GoStrings.ReplaceAllRemovesChar | software.go:154-156 | after deleting a one-character token, that character no longer occurs |
| GoStrings.ReplaceAllChars | software.go:154-156 | every character left by a replacement comes from the input or from the replacement text |
| GoStrings.ReplaceAllAbsent | software.go:112 | a replacement whose pattern does not occur leaves the string unchanged |
| GoStrings.ReplaceAllLeadingMatch | software.go:112 | a match at the start is replaced, and replacement continues after it |
| GoStrings.ReplaceAllDropsSingle | software.go:155 | deleting a character that occurs once removes exactly that occurrence |
| GoStrings.TrimSpaceSpec | software.go:92 | trimming returns the slice between the first and last non-white-space characters, and the result is empty exactly when the input is all white space |
| GoStrings.TrimSpaceKeepsChars | software.go:92 | trimming only removes characters |
| GoStrings.TrimSpaceTrimmed | software.go:92 | a name that starts and ends with non-white-space is left as it is |
| GoStrings.FieldsAreWords | software.go:159 | every field is non-empty and holds no white space |
| GoStrings.FirstFieldSpec | software.go:159-164 | the first field (or "" when there is none) holds no white space, is empty exactly when the input is all white space, and is a white-space-delimited slice of the input |
| GoStrings.FirstFieldOfWord | software.go:159-164 | a word followed by nothing or by white space is the first field |
| Sanitizer.SanitizePackageName | software.go:149-165 | the deletion loop followed by taking the first field equals `Sanitize`; the result holds no white space and no forbidden character |
| Sanitizer.SanitizeExcludes | software.go:151-164 | no forbidden character, no "\|\|" and no white space survive, and every character kept comes from the input |
| Sanitizer.SanitizeShape | software.go:159-164 | the result is empty exactly when only white space survives the deletions, and otherwise it is the first field of what survives |
| Sanitizer.OnlyForbiddenGivesEmpty | software.go:151-164 | a name made of forbidden characters and white space sanitises to "" |
| Sanitizer.FullyDisallowedGivesEmpty | software.go:151-164 | any input written as a sequence of whole listed tokens ("&&" and "\|\|" included) and white-space characters sanitises to "" |
| Sanitizer.DoubleAmpersandGivesEmpty | software.go:151-164 | the token "&&" on its own sanitises to "" |
| Sanitizer.SanitizeDropsInjectedCommand | software.go:149-165 | "foo; rm -rf /" sanitises to "foo" |
| Sanitizer.SanitizeBlank | software.go:159-164 | "   " sanitises to "" |
| Sanitizer.AmpersandsCanSurvive | software.go:151-156 | "&\|&" sanitises to "&&": the "&&" token is deleted before "\|" joins the ampersands |
| Sanitizer.DeletionOrderMatters | software.go:154-156 | deleting "&&" then "\|" leaves "&&", while the other order leaves "" |
| Sanitizer.StripExcludes | software.go:154-156 | a one-character token deleted at any point of the loop does not occur afterwards |
| Sanitizer.StripKeepsChars | software.go:154-156 | the deletion loop adds no character |
| Catalog.FindCommand | software.go:76-89 | the loop finds an entry exactly when some entry has the selected name, returns the command of the first such entry, and agrees with `Lookup` |
| Catalog.LookupSpec | software.go:78-84 | the lookup succeeds exactly when some entry has the name, and then returns the command of the first such entry |
| Catalog.LookupAtFirstMatch | software.go:78-84 | the first entry with the name determines the result |
| Catalog.CatalogNamesDistinct | software.go:17-28 | no two catalog entries share a name |
| Composer.BuildScript | software.go:106-124 | the builder's script and rewritten command equal `Compose`: for root, "apk update && " then the command; otherwise the sudo prefix with the password twice, then the command |
| Composer.TranslationRoundTrip | software.go:108-124 | on any command the handler can build, apt-to-apk replaces just the leading verb, apk-to-apt changes nothing, and apk-to-apt after apt-to-apk restores the command |
| Composer.RootScript | software.go:108-113 | a root script is "apk update && apk add" followed by the command's package part |
| Composer.NonRootScript | software.go:114-124 | a non-root script is the echo/sudo wrapper fed the password twice, followed by the unchanged command |
| Reporter.RenderLog | software.go:130-141 | the builder's log equals `Log`: header, server line, command line, outcome line, then "Output:\n" and the output |
| Reporter.LogFrame | software.go:131-141 | the log opens with the header and ends with "Output:\n" and the remote output verbatim |
| Reporter.LogOutcomeMarker | software.go:135-139 | right after the command line comes the failure mark exactly when the call failed, followed by its error text, and the success line otherwise |
| Reporter.LogDeterminesOutcome | software.go:130-141 | for a fixed server and command, equal logs with equal errors have equal outputs, and equal logs with equal outputs have equal errors |
| Reporter.OutcomeLineInjective | software.go:135-139 | different outcomes give different outcome lines |
| Handler.InstallSoftware | software.go:43-127 | the handler with its early returns equals `Handle` |
| Handler.EarlyRejections | software.go:44-68 | a non-POST request gets 405 "Method not allowed", a form error gets 400 with the parser's message, an empty server IP gets 400, an unknown server gets 404, each only when the earlier checks passed |
| Handler.SelectionRejections | software.go:71-104 | for a known server: an unknown software type, a name not in the catalog and a blank custom name each get 400 with their own message |
| Handler.ChooseAccepts | software.go:74-104 | a selection is accepted exactly when the catalog has the name or the custom name is not blank |
| Handler.DispatchedWhenAdmissible | software.go:43-127 | a request is sent exactly when it passes every check, and then to the server it names with the registry's credentials |
| Handler.RejectionOrder | software.go:44-104 | each check rejects with its own status and message, the earliest failing check wins, a request is dispatched exactly when every check passes, and it is dispatched to the named server with the registry's credentials |
| Handler.CatalogCommandsCanonical | software.go:17-28 | every catalog command is "apt install -y " followed by package names containing no 'a' |
| Handler.CommonRequest | software.go:74-124 | a valid catalog selection dispatches the first matching entry's command: on root behind an apk update with its verb rewritten to "apk add", otherwise behind the sudo wrapper, unchanged |
| Handler.CustomRequest | software.go:90-124 | a custom name is dispatched as one sanitised word after the install verb; that word holds no forbidden character, no "\|\|" and no white space, and only characters typed in the form |
| Handler.WordScript | software.go:100-124 | the script and the command built around one sanitised word, for root and for non-root logins |
| Handler.NginxOnRoot | software.go:108-113 | nginx on a root login sends "apk update && apk add nginx" and logs "apk add nginx" |
| Handler.GitOnSudoLogin | software.go:114-124 | git on a non-root login with password "pw" sends the sudo wrapper fed "pw", followed by "apt install -y git" |
| Handler.InjectedCommandDropped | software.go:90-100 | the custom name "foo; rm -rf /" installs "apt install -y foo" |
| Handler.OnlySeparatorsStillSent | software.go:92-100 | the custom name ";" passes the emptiness check and is sent as the bare "apt install -y " |

## Left out

- `softwareHandler` (software.go:30-40) and the HTML templates are not modelled. They only render pages.
- The HTTP plumbing is not modelled: the response writer, `http.Error` (including the newline it appends), `FormValue` and template execution.
  - The model's `Request` carries the method, the error that `ParseForm` returned (if any) and the form fields.
  - An error response is an `Outcome.Rejected` with its status and message.
- `runRemoteCommand` is an external call. `Handle` returns the call's arguments as a `RemoteCall`. The call's output and error enter `RenderLog` as parameters.
- The global `ipMap` registry is passed in as a map from IP address to the two server fields the handler reads.
- Strings are sequences of Unicode code points. The model does not cover invalid UTF-8 or the byte-level decoding `strings.Fields` and `strings.TrimSpace` perform.
- Handler.GitOnSudoLogin: this lemma states the script as `SudoPrefix("pw")` followed by the command, not as one fully spelled-out literal. `SudoPrefix` is the literal wrapper with the password spliced in twice.
- The password is spliced verbatim between single quotes, without escaping (software.go:116-119), and the model reproduces this in `Composer.SudoPrefix`. No lemma states what a quote inside a registered password does to the script, because the password comes from the registry, not from the form.
