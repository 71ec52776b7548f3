# Sabor & Alma page controller, modelled in Dafny

The restaurant site's client script (`assets/js/script.js`) has three parts:

- a reservation form with a table of per-field validators, a `validateField` routine and an asynchronous submit handler;
- a mobile menu toggle;
- scroll handlers for the navbar style, the scroll-to-top button and the active navigation link.

This project models each part on plain data. The browser's elements become fields of one `PageController` class. Scroll offsets, the clock and the delivery outcome become parameters.

Modules:

- `Text`: the JavaScript whitespace set (all of ECMAScript's WhiteSpace and LineTerminator: TAB, VT, FF, space, NBSP, ZWNBSP, every Zs space, LF, CR, LS, PS), `trim()` and deleting every `\s` match.
- `EmailPattern`, `PhonePattern`: the two regular expressions. The language of each is the set of strings rendered from well-formed parts. A deterministic `Parse` decides it. Its contract proves soundness, and a lemma proves completeness. The phone pattern also has the round trip `Parse(Render(p)) == Some(p)`.
- `Validators`: the table (`nombre`, `email`, `telefono`, `personas`, `fecha`, `hora`), its Spanish messages, and lookup by name.
- `Form`: pure specifications of one validation pass (`Marked`, `Recorded`, `AllAccepted`) and of `form.reset()`.
- `Menu`: the toggle/menu/`aria-expanded` state, the two click rules, and runs of clicks.
- `Scroll`: the thresholds (100, 300), the anchor target (`offsetTop - 80`), and the specification of the active-link pass.
- `Page`: the `PageController` class. It has one method per modelled handler (the anchor-click handler is the function `Scroll.AnchorTarget`), and loops where the script has `forEach`.

The submit handler is split at its `await`:

- `BeginSubmit` validates every field and, if all are valid, puts the button in the busy state.
- `FinishSubmit(delivered)` shows the banner, resets the form on success, and restores the button.
- `Submit` runs both.

Dates are day numbers. `Calendar(today, picked)` holds the current day (time zeroed) and the day the date field's value denotes.

Details of the code that the model keeps:

- A section's highlight range is `top - 100 < y <= top - 100 + height`. It excludes the offset `top - 100` and includes the offset `top - 100 + height`.
- The e-mail check rejects whitespace-only values as "required", not only the empty string.
- The phone pattern's `\s` separator can never match, because whitespace is deleted before the test.
- The name check counts `length` in UTF-16 code units, so a character above U+FFFF counts twice.

Notes on behaviour the model makes visible:

- An `input` event re-validates a field that carries `error`, but only the error text changes. The `error` class stays until the next submit (`Page.PageController.Input`).
- A `blur` never changes the class either (`Page.PageController.Blur`).
- Given day numbers, the date validator accepts today (`Validators.ValidateFecha`). In the browser this holds only where local midnight is not later than UTC midnight; see the `Date` line under "Left out". The date input's `min` attribute, which is not modelled, is set to tomorrow.

## Model

| member | source | states |
|---|---|---|
| Text.TrimIsInfix | assets/js/script.js:114-115 | `trim()` keeps exactly a middle slice whose outside is all whitespace and whose ends are not whitespace |
| Text.Trim | assets/js/script.js:114 | `!value.trim()` holds exactly for empty or whitespace-only values |
| Text.StripSpaces | assets/js/script.js:127 | `replace(/\s/g, '')` leaves no whitespace, never lengthens the value, and leaves a value without whitespace unchanged |
| Text.StripOne | assets/js/script.js:127 | a single character is deleted exactly when it is whitespace |
| Text.StripConcat | assets/js/script.js:127 | deleting whitespace works piecewise on a concatenation, so the kept characters stay in their order (with `StripOne`, this determines the result) |
| Text.Utf16Length | assets/js/script.js:115 | `length` counts UTF-16 code units: between one and two per character, and one per character exactly when no character lies above U+FFFF |
| Text.Utf16One | assets/js/script.js:115 | one character counts two code units when it lies above U+FFFF and one otherwise |
| Text.Utf16Concat | assets/js/script.js:115 | the count of a concatenation is the sum of the counts, so with `Utf16One` the value of `length` is fixed |
| Text.StripKeepsOthers | assets/js/script.js:127 | deleting whitespace keeps every other character, as often as it occurs |
| Text.StripEmptyIffBlank | assets/js/script.js:125-127 | deleting whitespace gives the empty string exactly for whitespace-only values |
| EmailPattern.Parse | assets/js/script.js:120-121 | any address the matcher accepts has non-empty `[^\s@]+` pieces and renders back to the input (soundness) |
| EmailPattern.ParseComplete | assets/js/script.js:120 | every `local@domain.tld` made of `[^\s@]+` pieces is accepted (completeness) |
| EmailPattern.ParseDecides | assets/js/script.js:120-121 | the matcher accepts a string iff it is in the pattern's language |
| EmailPattern.MatchesIffShape | assets/js/script.js:120 | in the language iff: no whitespace, exactly one `@` with text before it, and after it a `.` with text on both sides |
| EmailPattern.MatchesShape | assets/js/script.js:120 | every rendered well-formed address has that shape |
| EmailPattern.ShapeMatches | assets/js/script.js:120 | every string of that shape is a rendered well-formed address |
| PhonePattern.Parse | assets/js/script.js:126-127 | any number the greedy matcher accepts is well formed (3 + 3 + 3..6 digits, optional `+`, `(`, `)`, separators) and renders back to the input |
| PhonePattern.ParseRender | assets/js/script.js:126 | round trip: a well-formed number's rendering parses back to the same parts |
| PhonePattern.HeadParts | assets/js/script.js:126 | the matcher reads the optional `+` and `(`, the area code and the optional `)` back off a rendering |
| PhonePattern.TailParts | assets/js/script.js:126 | the matcher reads the separators, the exchange and the line back off what follows the area code |
| PhonePattern.ParseDecides | assets/js/script.js:126-127 | the matcher accepts a string iff it is in the pattern's language |
| PhonePattern.DigitsMatchIffLength | assets/js/script.js:126 | a string of digits alone is accepted iff it has 9 to 12 digits |
| PhonePattern.RenderedDigitsLength | assets/js/script.js:126 | a well-formed number made only of digits uses no optional punctuation and has 9 to 12 characters |
| Validators.FieldNamed | assets/js/script.js:149 | the lookup finds a validator exactly for the six keys of the table, each under its own key, among names that are no property of `Object.prototype` |
| Validators.Key | assets/js/script.js:112-146 | every field's key is one of the table's six keys |
| Validators.FieldNamedKey | assets/js/script.js:149 | looking a field's key up in the table finds that field |
| Validators.FieldOrderDistinct | assets/js/script.js:112-146 | the six keys of the table, which the submit handler visits in declaration order, are distinct |
| Validators.ValidateNombre | assets/js/script.js:113-117 | `''` iff the trimmed value is at least 3 UTF-16 code units long; "introduce tu nombre" for blank input; "al menos 3 caracteres" for a non-blank value shorter than that |
| Validators.NombreCountsCodeUnits | assets/js/script.js:115 | a two-character name with one character above U+FFFF is accepted; two characters of the Basic Multilingual Plane are too short |
| Validators.ValidateEmail | assets/js/script.js:118-123 | `''` iff the untrimmed value has the e-mail shape; the "required" message for blank input and the "invalid" message otherwise |
| Validators.ValidateTelefono | assets/js/script.js:124-129 | `''` iff the value with whitespace deleted is in the phone language; "required" for blank input and "invalid" otherwise |
| Validators.ValidatePersonas | assets/js/script.js:130-133 | `''` iff the value is non-empty (whitespace passes); otherwise the party-size message |
| Validators.ValidateFecha | assets/js/script.js:134-141 | `''` iff the value is non-empty and its day is not before today; "required" for empty input and "future date" for a past day |
| Validators.ValidateHora | assets/js/script.js:142-145 | `''` iff the value is non-empty; otherwise the time message |
| Validators.Check | assets/js/script.js:149 | `validators[fieldName](value)` for a field of the table: `''` exactly when that field's rule accepts the value |
| Validators.Message | assets/js/script.js:149 | a name that is neither a key of the table nor a property of `Object.prototype` yields `''` |
| Validators.MessageMeaning | assets/js/script.js:112-149 | a field's message is `''` iff its rule accepts the value; otherwise it is one of that field's own fixed messages, and a name outside the table gets `''` |
| Validators.EmailAcceptsSample | assets/js/script.js:118-123 | `"user@example.com"` is accepted |
| Validators.EmailRejectsSamples | assets/js/script.js:118-123 | `"user@"` and `"userexample.com"` get the invalid-address message |
| Validators.EmailRejectsEmpty | assets/js/script.js:119 | the empty address gets the "required" message |
| Validators.TelefonoDigits | assets/js/script.js:124-129 | a number of digits and whitespace is accepted iff it has 9 to 12 digits |
| Form.MarkedMeaning | assets/js/script.js:184-192 | after the pass, each present field of the table carries `error` iff its value is unacceptable; other controls and all values are unchanged |
| Form.ValidIffNothingMarked | assets/js/script.js:181-197 | the form counts as valid iff the pass leaves no field of the table marked |
| Form.ValidIffAcceptable | assets/js/script.js:184-194 | the form counts as valid iff every present field of the table holds an acceptable value; missing fields are skipped |
| Form.SlotsAgreeWithMarks | assets/js/script.js:150-154 | a present field's error text is non-empty iff the field is marked with `error` |
| Form.EmptyRejected | assets/js/script.js:112-146 | every validator of the table rejects the empty string |
| Form.Reset | assets/js/script.js:231 | `form.reset()` keeps the same controls and their classes and returns every value to the empty default |
| Form.ResetFormInvalid | assets/js/script.js:231 | after `form.reset()`, a form with any field of the table present fails validation |
| Form.AllAcceptedMeaning | assets/js/script.js:181-188 | the pass's verdict holds iff every present field it visits holds a value its validator accepts |
| Form.MarkedStep | assets/js/script.js:186-191 | validating one more field, not visited before, marks just that field |
| Form.RecordedStep | assets/js/script.js:152-154 | ... and records just that field's message, computed from its unchanged value |
| Form.AllAcceptedStep | assets/js/script.js:186-188 | validity after one more field is the old validity and that field's verdict |
| Form.PassStep | assets/js/script.js:184-192 | step `i` of a pass over distinct keys is the one-field step for `names[i]` |
| Menu.Toggle | assets/js/script.js:28-34 | a toggle click flips both `active` classes and sets `aria-expanded` to "true" iff the toggle is now active |
| Menu.Close | assets/js/script.js:36-42 | a link click leaves toggle and menu inactive and `aria-expanded` "false" |
| Menu.RunMirrored | assets/js/script.js:28-42 | after any non-empty sequence of clicks, `aria-expanded` is "true" iff the toggle is active |
| Menu.RunSynced | assets/js/script.js:28-42 | if toggle and menu start in agreement, no sequence of clicks separates them |
| Menu.RunParity | assets/js/script.js:28-34 | with toggle clicks only, each class ends flipped iff the number of clicks is odd |
| Menu.ToggleTwice | assets/js/script.js:28-34 | two toggle clicks restore the previous state |
| Menu.LinkClickCloses | assets/js/script.js:36-42 | after a link click the menu is closed whatever came before, and repeating the click changes nothing |
| Scroll.ScrollTopImpliesNavbar | assets/js/script.js:11 | the navbar threshold is strict (`> 100`), and the scroll-to-top button never shows while the navbar is unscrolled |
| Scroll.AnchorTarget | assets/js/script.js:51-59 | an anchor click scrolls iff its target exists, to exactly 80 pixels above the target |
| Scroll.AnchorLandsInSection | assets/js/script.js:54 | an anchor jump to a section at least 20 pixels tall lands inside that section's highlight range |
| Scroll.Covers | assets/js/script.js:296 | a section of zero or negative height is never highlighted |
| Scroll.CoversBounds | assets/js/script.js:291-296 | the range excludes `offsetTop - 100` and `offsetTop - 100 + offsetHeight + 1`; for a positive height it includes `offsetTop - 100 + 1` and `offsetTop - 100 + offsetHeight` |
| Scroll.Highlighted | assets/js/script.js:290-300 | a pass that matches no section leaves every link as it was; otherwise a link is active iff it is the first whose `href` is `#` + the id of the last matching section |
| Scroll.LastCovering | assets/js/script.js:290-300 | the section chosen holds the offset and no later one does; if none is chosen, no section holds it |
| Scroll.LinkFor | assets/js/script.js:294 | the link chosen is the first whose `href` is `#` + the section id; if none is chosen, no link has that `href` |
| Scroll.OnlyActive | assets/js/script.js:297-298 | the chosen link, and only it, is active |
| Scroll.HighlightedAtMostOne | assets/js/script.js:296-298 | after a pass in which some section matched, at most one link is active |
| Scroll.HighlightedIdempotent | assets/js/script.js:287-301 | a second pass at the same offset changes nothing |
| Scroll.ContiguousOrdered | assets/js/script.js:291-292 | with sections laid end to end, every later section starts at or after the end of an earlier one |
| Scroll.ContiguousCoversAtMostOne | assets/js/script.js:296 | with sections laid end to end, no offset is in two sections' ranges |
| Page.PageController.UpdateNavbar | assets/js/script.js:8-18 | `scrolled` is set iff the offset exceeds 100 |
| Page.PageController.UpdateScrollTop | assets/js/script.js:90-96 | the scroll-to-top button is visible iff the offset exceeds 300 |
| Page.PageController.HighlightNavLink | assets/js/script.js:287-301 | the loop leaves the links as the highlight specification says: last matching section's link only, no link if it has none, unchanged if no section matches |
| Page.PageController.OnScroll | assets/js/script.js:303 | one scroll event applies the three listeners: navbar, scroll-to-top button, highlight |
| Page.PageController.ClickToggle | assets/js/script.js:28-34 | the menu state becomes `Menu.Toggle` of the old one |
| Page.PageController.ClickNavLink | assets/js/script.js:36-42 | the menu state becomes `Menu.Close` of the old one |
| Page.PageController.ValidateField | assets/js/script.js:148-157 | returns true iff the validator's message is `''`; the error slot, if present, holds that message; a name that is neither a key of the table nor a property of `Object.prototype` gives `''` and true |
| Page.PageController.Blur | assets/js/script.js:159-165 | leaving a field of the table rewrites its error text and does not touch its class |
| Page.PageController.Input | assets/js/script.js:166-170 | typing updates the value; a field marked `error` gets its error text recomputed from the new value |
| Page.PageController.ShowMessage | assets/js/script.js:242-246 | the banner shows the message with class `form-message <type>` |
| Page.PageController.MarkField | assets/js/script.js:185-191 | the callback for one key: a present field gets `error` iff rejected and its message recorded; a missing field is skipped and counts as valid |
| Page.PageController.ValidateAll | assets/js/script.js:184-192 | the loop marks each present field with `error` iff it is rejected, records every message, and returns the conjunction |
| Page.PageController.BeginSubmit | assets/js/script.js:178-202 | an invalid form shows the error banner and leaves the button alone; a valid one saves the label, shows "Enviando..." and disables the button |
| Page.PageController.FinishSubmit | assets/js/script.js:204-239 | success shows the success banner and resets the form; failure shows the failure banner; both restore the saved label and enable the button |
| Page.PageController.Submit | assets/js/script.js:178-240 | a whole submission: invalid leaves the button as it was; valid ends with the original label, the button enabled and the banner chosen by the outcome |

## Left out

- DOM lookups, `classList`, `FormData` and `querySelector` are replaced by the controller's fields. Line 182 builds a `FormData` that nothing uses.
- Console output (lines 234 and 309-310) is I/O.
- The fade-in `IntersectionObserver` (lines 67-82) depends on layout geometry and the browser's observer.
- Smooth scrolling (lines 55-58 and 98-103) is animation. Only the target offset is modelled (`Scroll.AnchorTarget`); the scroll-to-top click always targets offset 0.
- The 1.5-second simulated delivery (line 228) and the EmailJS call with its template parameters (lines 207-225) are an external service. The delivery step is the `delivered` input of `FinishSubmit`.
- The 5-second banner auto-hide (lines 247-249) is a timer.
- The date input's `min` attribute (lines 256-264) uses UTC `Date` arithmetic.
- Real `Date` semantics are not modelled: UTC parsing of `YYYY-MM-DD` against a local-midnight `today`, and Invalid Date (whose comparison is false). `Calendar` supplies day numbers as given.
- Page.PageController.BeginSubmit: requires that no submission is suspended. Overlapping submits are concurrency; while one is suspended the button is disabled, so the model allows only one.
- Scroll offsets and element geometry are whole pixels; `pageYOffset` can be fractional.
- Validators.FieldNamed, Validators.Message, Page.PageController.ValidateField: names inherited from `Object.prototype` (`toString`, `constructor`, `__proto__` and the like) are not modelled. For them `validators[fieldName]` is truthy, so the script writes a non-empty text, returns false or throws. Every call site passes a key from `Object.keys(validators)`, so none of these names reaches the lookup.
- Scroll.LinkFor, Page.PageController.HighlightNavLink: section ids are assumed to need no CSS escaping. The script builds the selector by string interpolation, so an id containing `"` would make `querySelector` throw and end the pass early, and an id containing `\` would be read as a CSS escape; the model compares the `href` with `#` + id literally and always finishes the pass.
- Validators.ValidateNombre: a Dafny string holds Unicode scalar values, so a lone UTF-16 surrogate, which a JavaScript string may hold, cannot be represented. For every other string, `Text.Utf16Length` counts what `length` counts.
- Form.Reset: `form.reset()` restores each control's default value, which the model takes to be the empty string.
- The lazy-loading fallback (lines 270-279) is script injection from a CDN.
- `lastScroll` (lines 6 and 17) is written and never read.
- Whitespace follows the Unicode version's current Zs set; later Unicode changes to that set are not tracked.
