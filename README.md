# Church one-pager: contact-form validation and page UI flags

This project models the behaviour of `script.js`, the single browser script of a
static church website, in Dafny. Two parts of the script are modelled.

- **Contact-form validation.** `validateForm` runs on submit over the values read
  from the form (name, e-mail, interest, message). It checks the name, then the
  e-mail, then the interest, stops at the first failure and shows that field's
  error message. `validateInput` runs per control on `blur`, and on `input` once
  the control is flagged. It decides validity from the control's `type` and its
  trimmed value, and keeps the control's `error` class in step. Both use the
  e-mail pattern `^[^\s@]+@[^\s@]+\.[^\s@]+$`. It is modelled as a structural
  predicate (`Email.IsEmail`) and proved equal to the regular expression's
  meaning (`Email.MatchesRegex`).
- **The page's UI flags** (`PageUi.Page`), with the browser reduced to the events
  it delivers:
  - the navbar's `scrolled` class, driven by `scrollY > 50`;
  - the `active` classes on `navMenu` and `mobileToggle`, with the hamburger icon
    drawn as an X or reset. One toggle event opens or closes the menu; a nav-link
    click, an outside click, a settled resize and Escape close it;
  - the nav-link highlighter. Each intersecting section entry clears every link,
    then marks the first link whose href is `#id`;
  - the one-shot fade-in observer. Every card is hidden before it is observed.
    Its first intersecting entry shows it and unobserves it.

Files: `wrappers.dfy` (Option), `strings.dfy` (JavaScript white space and `trim`),
`email.dfy` (the e-mail pattern), `form_validation.dfy` (validators and the
form control class) and `page_ui.dfy` (the page class and its event methods).

`scrolled` changes only in the scroll handler, so before the first scroll event
it is whatever the markup has (assumed absent, see "Left out").

## Model

| member | source | states |
|---|---|---|
| Strings.Trim | script.js:322 | `trim()` returns a string that is empty or starts and ends with a non-white-space character, and is no longer than its input |
| Strings.IsWhitespace | script.js:303 | the code points `\s` matches and `trim` strips: ECMAScript's WhiteSpace (tab, vertical tab, form feed, space, U+00A0, U+1680, U+2000-U+200A, U+202F, U+205F, U+3000, U+FEFF) and LineTerminator (line feed, carriage return, U+2028, U+2029) |
| Strings.Utf16Length | script.js:297 | `length` counts UTF-16 code units: between one and two per code point, and exactly one per code point iff none is astral |
| Strings.Utf16LengthCounts | script.js:297 | `length` is exactly the number of code points plus the number of astral code points, which take a surrogate pair each |
| Strings.TrimOfMargins | script.js:322 | trim is determined by its result: a string made of white space, a trimmed middle and white space trims to that middle |
| Strings.TrimSplits | script.js:322 | every string is white space, its trimmed form, then white space |
| Strings.TrimIdempotent | script.js:322 | trimming twice gives the same as trimming once |
| Strings.TrimNoWhitespace | script.js:322 | a string without white space is left unchanged by trim |
| Strings.TrimEmptyIff | script.js:322 | trim gives the empty string exactly for all-white-space input |
| Email.MatchesRegex | script.js:303 | `^[^\s@]+@[^\s@]+\.[^\s@]+$` matches a string iff it splits into plain, `@`, plain, `.`, plain, every part non-empty, where plain means no white space and no `@` |
| Email.IsEmail | script.js:303-304 | the string the pattern accepts: no white space, exactly one `@`, a non-empty local part before it, and a domain after it with a `.` that is neither its first nor its last character |
| Email.IsEmailMatchesRegex | script.js:303 | every string the structural e-mail predicate accepts matches `^[^\s@]+@[^\s@]+\.[^\s@]+$` |
| Email.RegexMatchIsEmail | script.js:327 | every string the regular expression matches has no white space, exactly one `@`, a non-empty local part and a domain with an interior `.` |
| Email.IsEmailIffRegex | script.js:303-304 | the structural predicate and the regular expression accept exactly the same strings |
| FormValidation.NameAccepted | script.js:297 | the name check: the field is present and its trimmed value is at least two UTF-16 code units long |
| FormValidation.EmailAccepted | script.js:304 | the e-mail check: the field is present and its untrimmed value matches the pattern |
| FormValidation.InterestAccepted | script.js:310 | the interest check: the field is present and not the empty string, untrimmed |
| FormValidation.ValidateForm | script.js:293-316 | the form passes iff name, e-mail and interest all pass; otherwise it fails with the name message iff the name fails, the e-mail message iff only later fields are reached and the e-mail fails, and the interest message iff name and e-mail pass and the interest fails |
| FormValidation.MessageIgnored | script.js:293-316 | changing the message field never changes the verdict |
| FormValidation.Submit | script.js:253-273 | a submit shows the success message exactly when all three checks pass, and otherwise the error message `validateForm` fails with, that is, the message of the first failing field |
| FormValidation.InputAccepts | script.js:325-338 | the validity of a trimmed control value by type: `email` matches the pattern, `text` is at least two code units, `select-one` is not empty, any other type is valid |
| FormValidation.Flagged | script.js:340-344 | the `error` class is on exactly when the trimmed value is invalid for the control's type and not empty |
| FormValidation.FormInput.Validate | script.js:321-347 | returns the type-specific validity of the trimmed value, and sets the error class exactly when that value is invalid and not empty |
| FormValidation.FormInput.Blur | script.js:278-280 | blur re-validates: the error flag afterwards is exactly "trimmed value invalid and non-empty" |
| FormValidation.FormInput.Input | script.js:282-286 | typing re-validates only a flagged control: the flag can be cleared but never raised, and the invariant "flag on implies value flagged" is kept |
| FormValidation.BlurAfterTypingScenario | script.js:278-286 | a `text` control where `J` was typed is not flagged while typing, and is flagged once it loses focus, as when Escape moves focus to the toggle |
| FormValidation.TextRuleIsNameRule | script.js:330-331 | a `text` control accepts a value exactly when the form's name check accepts it |
| FormValidation.AstralNameAccepted | script.js:297 | the name check counts code units: a single U+1F600 passes it, a single `a` does not |
| FormValidation.FormEmailPassesInput | script.js:326-328 | an e-mail accepted on submit (untrimmed) is also accepted, and never flagged, by the `email` control (trimmed) |
| FormValidation.InputEmailMoreLenient | script.js:322-328 | the converse fails: `a@b.co` after a no-break space (U+00A0) passes the `email` control but fails the submit check |
| FormValidation.BlankNeverFlagged | script.js:340-344 | an empty or all-blank control never carries the error class, whatever its type |
| FormValidation.SelectOneNeverFlagged | script.js:333-344 | a `select-one` control is never flagged, since its rule is exactly non-emptiness |
| PageUi.FirstLink | script.js:162 | the selected link is the first in document order whose href equals `#id`, and there is none exactly when no link has that href |
| PageUi.HighlightIsExclusive | script.js:156-165 | after highlighting section `id` at most one link is active; it points at `#id`; there is one exactly when some link points at `#id` |
| PageUi.LastIntersecting | script.js:152-153 | picks the section of the last intersecting entry of a batch; none exactly when no entry intersects |
| PageUi.Intersected | script.js:180-181 | the targets of a batch's intersecting entries, and only those |
| PageUi.Page.constructor | script.js:192-197 | at load the menu is closed, the navbar unscrolled, every fade element hidden and observed, and nothing has faded in |
| PageUi.Page.Scroll | script.js:134-140 | the `scrolled` flag is set iff `scrollY > 50`; nothing else changes |
| PageUi.Page.ToggleClick | script.js:27-42 | a toggle click flips both `active` flags together and draws the hamburger as an X exactly when the menu is now open |
| PageUi.Page.NavLinkClick | script.js:45-58 | at width ≤ 768 a nav-link click closes both flags and resets the hamburger, open or not; at a wider width nothing changes |
| PageUi.Page.OutsideClick | script.js:61-71 | a click outside `.nav-container` closes an open menu and resets the hamburger; a closed menu is left alone |
| PageUi.Page.Resize | script.js:74-88 | a settled resize to width > 768 closes an open menu and resets the hamburger; otherwise nothing changes |
| PageUi.Page.KeyDown | script.js:412-422 | Escape closes an open menu but leaves the hamburger spans as they are; other keys change nothing |
| PageUi.Page.Highlight | script.js:153-166 | clears every link, then marks exactly the first link to `#id` |
| PageUi.Page.SectionEntries | script.js:151-168 | after a batch, the links highlight the last intersecting section; a batch with no intersecting entry changes no flags |
| PageUi.Page.FadeEntry | script.js:181-185 | an intersecting entry shows its target and unobserves it; a non-intersecting one changes nothing |
| PageUi.Page.FadeEntries | script.js:179-187 | after a batch, exactly the intersecting targets are shown and unobserved, other styles are unchanged, and the record of elements that faded in only grows without repeats |
| PageUi.ScrollScenario | script.js:134-140 | offsets 0, 100, 0, 50, 51 give the flags absent, present, absent, absent, present |
| PageUi.EscapeScenario | script.js:412-421 | toggle then Escape leaves both menu flags off and the hamburger still an X |
| PageUi.HighlightScenario | script.js:151-167 | with two links to `#about`, an entry for `about` marks only the first one, clears the `#home` mark, and a later non-intersecting entry changes nothing |
| PageUi.FadeScenario | script.js:179-197 | a card that enters, leaves and re-enters is hidden, then shown once, then stays shown and is no longer observed |

The `Page` class keeps these invariants (`Page.Valid`), and every event method
preserves them:
- the two menu flags are equal;
- an open menu shows the X;
- after a section entry, the links highlight the last section;
- a card is observed exactly while it is hidden;
- the ghost record `fadedIn` holds each card that faded in, once.

`FormInput.Valid` says the `error` class is only on for a value that is really
invalid and non-empty.

## Left out

- Counter animation (script.js:204-243). It adds `target / 125` in floating point
  once per animation frame, and `parseInt` may give NaN. Its one exact promise is
  that the last frame snaps the text to `target` (script.js:222). That is not
  modelled, because it is floating-point frame timing.
- `debounce` and `throttle` (script.js:440-464) are never called and exist only
  for timer state.
- The 250 ms resize debounce is modelled as one `Resize` call with the final width.
- Smooth scrolling (script.js:94-119) depends on element geometry and `scrollTo`.
- `showFormMessage` (script.js:352-405) builds DOM nodes, injects CSS and uses
  timers. Only the (text, kind) pair it is given is modelled (`Submit`,
  `ValidateForm`).
- `FormData`, `console.log`, the passive touch listeners and the `using-mouse`
  class are not modelled. They have no effect on the flags modelled here.
- `mobileToggle.focus()` (script.js:420) is not modelled as part of `KeyDown`.
  An Escape that closes the menu may move focus away from a form control, which
  fires that control's `blur` handler. The model represents this as a separate
  `FormInput.Blur()` call on that control (`BlurAfterTypingScenario`).
- `form.reset()` (script.js:272) is not modelled. It restores the controls'
  values after a successful submit, so in the model `FormInput.value` keeps the
  submitted text until the next `Input` call.
- Intersection geometry (`rootMargin`, `threshold`) is not modelled. Observer
  callbacks are batches of (target, isIntersecting) entries.
- `FadeEntries` requires every entry's target to be a fade element. That is more
  than the browser delivers: it reports only targets still observed, while the
  model also accepts entries for cards already unobserved.
- The hamburger's span styles are one boolean (X shape or reset), not the
  transform strings.
- The DOM structure is assumed, not modelled. `mobileToggle` and the nav links
  are taken to sit inside `.nav-container`, so the document click handler leaves
  clicks on them alone. `navbar`, `navMenu`, `mobileToggle` and three hamburger
  spans are taken to exist. No section id is taken to break the
  `.nav-link[href="#id"]` selector.
- The page's markup is a constructor parameter for the links' initial `active`
  classes. The markup is assumed to carry no `scrolled` class on the navbar, no
  `active` class on `navMenu` or `mobileToggle`, hamburger spans without inline
  styles, and no `error` class on any form control.
- `scrollY` is a real number and `innerWidth` an integer. Strings are sequences
  of code points; `length` is the UTF-16 count (`Utf16Length`). The pattern and
  `trim` give the same answer per code point as per code unit, because surrogates
  are neither white space nor `@`. The white-space set is ECMAScript's
  WhiteSpace and LineTerminator, which is what both `trim` and `\s` use.
- The regular expression engine itself is not modelled, only the meaning of this
  one pattern.
