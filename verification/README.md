# World Class Realty page script, modelled in Dafny

The site's `script.js` wires browser events to a handful of small decision rules. This
project models those rules as pure functions over immutable records and proves what
they promise:

- the contact form's e-mail and phone checks (`EmailRule`, `PhoneRule`), written as
  character-level predicates rather than a regular-expression engine, and the order in
  which the submit handler applies its checks (`ContactForm`);
- exclusive selection among the search tabs and among the filter buttons (`Selection`),
  and the property filter's final card visibility (`PropertyFilter`);
- the navigation menu's state machine (`NavMenu`), the wishlist buttons (`Wishlist`) and
  the stats counters' one-shot guard (`StatsCounter`);
- the toast text and style variant each caller picks (`Toasts`).

Modelling choices:

- JavaScript's `\s` is the WhiteSpace and LineTerminator set of ECMAScript; `\d` and `\D`
  are the ASCII digits and their complement. Dafny characters are Unicode scalar values
  while the patterns run over UTF-16 code units; the verdicts agree, because neither
  half of a surrogate pair is white space, `@`, `.` or a digit.
- A form field that is absent reads as the empty string.
- `getAttribute` can return `null`; `PropertyFilter.Attr` keeps that case. Since
  `null === null`, a filter button without `data-filter` shows exactly the cards without
  `data-category`.
- The viewport width and each observer entry's `isIntersecting` are inputs supplied by
  the browser.
- The document-level click handler closes the menu only when the target lies outside both
  the menu and the toggle. The toggle and the wishlist buttons stop propagation, so their
  clicks never reach it. A click on a regular menu link reaches it from inside the menu,
  where it does nothing. `NavMenu.Event` has one constructor per handler, with the click
  target's region as a parameter of `DocumentClick`.

Two details of the code:

- The menu closes on every resize event that finds the viewport wider than 768 pixels,
  not only when the width crosses 768.
- The filter keeps exactly one button active; no separate "all" state exists beside the
  active button.

The filter's cards are modelled by their settled display (`PropertyFilter`). A separate
module, `FilterTimers`, models the delayed hide of one card, the race it allows when two
filter clicks fall within 300 ms of each other, and the corrected handler that the settled
model describes (see "## Findings").

## Model

| member | source | states |
|---|---|---|
| EmailRule.ValidateEmail | script.js:258-260 | an accepted address contains an `@` and a `.` and has at least five characters |
| EmailRule.EmailCharacterisation | script.js:258-260 | the e-mail pattern accepts a string exactly when it has no white space, exactly one `@`, a non-empty part before it, and a `.` in the domain that is neither the domain's first nor its last character |
| EmailRule.MatchIsWellFormed | script.js:258-260 | any way the anchored pattern can match a string forces the four conditions above |
| EmailRule.WellFormedMatches | script.js:258-260 | a string meeting the four conditions yields cut points at which the pattern matches |
| EmailRule.EmailExamples | script.js:258-260 | `a@b.co` and `a@b.c.d` pass; `a@b`, `@b.co`, `a@@b.co` and `a b@c.de` fail |
| PhoneRule.StripNonDigits | script.js:263 | removing every non-digit leaves only digits and never lengthens the string |
| PhoneRule.IsMobileNumber | script.js:263 | a string the digit pattern accepts is ten digits long, all digits, and does not start with 0 to 5 |
| PhoneRule.ValidatePhone | script.js:262-264 | an accepted phone field has at least ten characters |
| PhoneRule.StripAppend | script.js:263 | stripping treats each character on its own: stripping a concatenation concatenates the stripped parts |
| PhoneRule.StripFixpoints | script.js:263 | stripping leaves a string unchanged exactly when the string is all digits |
| PhoneRule.StripIdempotent | script.js:263 | stripping twice gives the same as stripping once |
| PhoneRule.StripKeepsEveryDigit | script.js:263 | every digit occurs as often after stripping as before |
| PhoneRule.NonDigitIgnored | script.js:262-264 | inserting a non-digit anywhere changes neither the stripped string nor the phone verdict |
| PhoneRule.PhoneReadsOnlyDigits | script.js:262-264 | a phone number and its digits alone get the same verdict |
| PhoneRule.PhoneCharacterisation | script.js:262-264 | a phone passes exactly when its digits number ten and the first is 6 to 9 |
| PhoneRule.PhoneAcceptsExamples | script.js:262-264 | `9876543210` and `987-654-3210` pass |
| PhoneRule.PhoneRejectsExamples | script.js:262-264 | `1234567890` (leading 1), `98765` (five digits) and `+91 9876543210` (twelve digits) fail |
| ContactForm.Validate | script.js:229-242 | the missing-field error occurs exactly when name, phone or message is empty; the e-mail error exactly when all three are present and the e-mail is non-empty and invalid; the phone error exactly when all three are present, the e-mail is empty or valid, and the phone is invalid; the form is accepted exactly when name and message are present, the e-mail is empty or valid, and the phone is valid |
| ContactForm.Notice | script.js:229-255 | every rejection shows an error toast and only acceptance shows the success toast |
| ContactForm.NoticesDistinct | script.js:230-251 | the four outcomes show four different messages |
| ContactForm.RequiredFieldsFirst | script.js:229-232 | with the name or message empty the verdict is the missing-field error, whatever the e-mail and phone contain |
| ContactForm.EmailBeforePhone | script.js:234-242 | a bad non-empty e-mail is reported before a bad phone; with the e-mail blanked, the phone alone decides |
| ContactForm.EmptyEmailNeverRejects | script.js:234 | an empty e-mail never gives the e-mail error, and blanking an e-mail that raised no error leaves the verdict unchanged |
| ContactForm.PhoneFormattingIgnored | script.js:239-242 | a phone with at least one digit gets the same verdict as its digits alone |
| ContactForm.DigitlessPhoneIsInvalid | script.js:229-242 | a non-empty phone without digits passes the required check and is then rejected as an invalid phone |
| ContactForm.SubmitExamples | script.js:229-242 | one form per verdict: accepted with an empty e-mail and a dashed phone, e-mail error, phone error, missing field |
| Selection.ClearAll | script.js:89 | after the first pass no element of the group is active and each keeps what it carries |
| Selection.Activate | script.js:87-92 | after a click the group keeps its size and contents, the clicked element is active and no other is |
| Selection.ExactlyOneActive | script.js:87-92 | a group has exactly one active element precisely when one element is the only active one |
| Selection.NoneActive | script.js:89 | a group has no active element exactly when its active count is zero |
| Selection.ClickLeavesOneActive | script.js:272-276 | after any click exactly one element of the group is active, and it is the clicked one |
| Selection.LastClickWins | script.js:87-92 | after two clicks the group is as if only the second had happened |
| PropertyFilter.Matches | script.js:280 | a token always selects cards of its own category, and a token other than `all` selects only those |
| PropertyFilter.ShowMatching | script.js:277-293 | every card keeps its place and category, and ends up shown exactly when the token is `all` or equals its category |
| PropertyFilter.ClickFilter | script.js:272-294 | a filter click leaves the clicked button the only active one, keeps every button and card in place, and leaves the cards agreeing with the active button's token |
| PropertyFilter.AllShowsEverything | script.js:280 | the token `all` shows every card |
| PropertyFilter.HiddenIffOtherCategory | script.js:280-291 | under any other token a card is hidden exactly when its category differs from the token |
| PropertyFilter.LatestFilterDecides | script.js:279-293 | the cards after two filter passes are those after the second pass alone |
| PropertyFilter.LastFilterClickWins | script.js:272-294 | after two filter clicks the page is as if only the second had happened |
| PropertyFilter.MissingAttributesMatch | script.js:277-280 | a missing `data-filter` matches a missing `data-category`, but does not act as `all` |
| NavMenu.CloseAll | script.js:50-80 | the closing step leaves menu, toggle, overflow lock and every dropdown closed |
| NavMenu.ToggleMenu | script.js:32-37 | a toggle click flips the menu and the toggle, sets the overflow lock from the menu's new state, and leaves dropdowns alone |
| NavMenu.ToggleDropdown | script.js:40-48 | on a viewport of at most 768 pixels a dropdown click flips that dropdown and nothing else; on a wider one it changes nothing |
| NavMenu.Step | script.js:32-80 | every event keeps menu, toggle and overflow lock in agreement; only a toggle click opens the menu; only a dropdown click opens a dropdown |
| NavMenu.RunKeepsInStep | script.js:32-80 | any sequence of events keeps them in agreement |
| NavMenu.ReachableStatesInStep | script.js:32-80 | from the page as loaded, menu open, toggle active and scrolling locked always coincide |
| NavMenu.ClosingEvents | script.js:50-80 | a regular-link click, a click outside, or a resize wider than 768 pixels closes everything |
| NavMenu.CloseIdempotent | script.js:50-80 | closing an already closed menu changes nothing |
| NavMenu.QuietEvents | script.js:63-80 | a resize to at most 768 pixels, or a click inside the menu or on the toggle reaching the document, changes nothing |
| NavMenu.ToggleTwiceRestores | script.js:32-37 | two toggle clicks restore any state in which menu, toggle and overflow agree |
| NavMenu.DropdownTwiceRestores | script.js:40-48 | two clicks on one dropdown link restore the state, whatever the viewport width |
| Wishlist.Click | script.js:140-157 | a click flips the button's active flag, leaves the icon filled exactly when active and outlined exactly when not, keeps the icon's other classes, and announces "Added to favorites!" as a success when the button became active and "Removed from favorites" as information when it became inactive |
| Wishlist.ClickTwiceRestores | script.js:140-157 | two clicks restore a button whose icon agreed with it |
| Wishlist.ClickTwiceNeedsAgreement | script.js:145-156 | an icon carrying both classes is not restored by two clicks |
| Wishlist.ClickAt | script.js:140-157 | a click changes only the clicked button among the page's buttons |
| Wishlist.ClicksCommute | script.js:140-157 | clicks on two different buttons give the same result in either order |
| StatsCounter.OnEntries | script.js:121-128 | one callback sets the flag exactly when it was set or some entry intersects, and starts the animation once exactly when the flag was clear and some entry intersects |
| StatsCounter.OnEntry | script.js:122-126 | one entry keeps the guard, changes nothing once the flag is set, and starts the animation at most once |
| StatsCounter.Observe | script.js:121-128 | successive callbacks never clear the flag and never undo an animation run |
| StatsCounter.AtMostOnce | script.js:98-128 | over any sequence of callbacks the animation has run once if the flag is set and never otherwise, and the flag ends set exactly when some entry intersected |
| StatsCounter.AtMostOnceFromLoad | script.js:98-128 | from page load the animation runs at most once, and exactly once when some entry ever intersected |
| StatsCounter.AnimatedStays | script.js:123-126 | once the flag is set no later callback changes anything |
| StatsCounter.FirstIntersectingEntryStarts | script.js:122-126 | the animation starts on the first intersecting entry of a callback and not before |
| FilterTimers.Fire | script.js:289-291 | once the pending hide timers have run none is left, and the card is shown only if it was shown with no timer pending |
| FilterTimers.ClickAsWritten | script.js:279-292 | a selecting click shows the card at once and leaves its pending hide timers; any other click adds one timer and leaves the display |
| FilterTimers.ClickCorrected | script.js:279-292 | as the handler, except that a selecting click also cancels the card's pending hide timers: a selecting click shows the card with no timer pending; any other click keeps the display and adds exactly one timer, as the handler does |
| FilterTimers.SpacedClickSettles | script.js:279-292 | with no timer pending, a click followed by 300 ms settles the card to shown exactly when the token selects it |
| FilterTimers.StaleHideTimerHidesCard | script.js:280-291 | as written, `villa` and then `all` within 300 ms leave an apartment card hidden |
| FilterTimers.CorrectedTracksLastFilter | script.js:279-292 | with cancellation, a card always agrees with the latest token up to hide timers not yet fired |
| FilterTimers.CorrectedSettlesOnLastFilter | script.js:279-292 | with cancellation, after any clicks at any spacing, a last click followed by 300 ms settles the card to shown exactly when that click's token selects it |
| FilterTimers.CorrectedShowsCardUnderAll | script.js:279-292 | with cancellation, the apartment card of the race above ends up shown |

## Left out

- The animate-on-scroll library's initialisation (script.js:4-9): a call into third-party code.
- The header's `scrolled` class and the scroll-to-top button's visibility (script.js:16-22, 323-331): each is a single comparison of the scroll offset with 50 or 300 pixels, with nothing to prove.
- Smooth scrolling and the scroll-to-top click (script.js:200-212, 333-338): browser layout and scrolling.
- The toast's element, styling and timers (script.js:163-195): DOM and timer plumbing. Only the message and the style variant each caller passes are modelled.
- The counter animation itself (script.js:100-119): floating-point increments driven by animation frames. Only the guard that starts it is modelled.
- The simulated submission (script.js:244-255): the button's label swap, its disabling, the two-second timer and the form reset. Only the success toast it ends with is modelled, in `ContactForm.Notice`.
- The filter's opacity and scale transitions (script.js:282-288): timing only, with no effect on `display`.
- Every `PropertyFilter` contract describes a page with no hide timer pending, that is, with filter clicks at least 300 ms apart; `FilterTimers` models what happens otherwise.
- PropertyFilter.LastFilterClickWins: holds for the page only when filter clicks are at least 300 ms apart. A hide timer of script.js:289-291 is never cancelled, so a card hidden by one click and shown by the next within 300 ms ends up hidden; `FilterTimers` models that race.
- PropertyFilter.AllShowsEverything: holds for the page only under the same 300 ms spacing, for the same reason.
- PropertyFilter.LatestFilterDecides: holds for the page only under the same 300 ms spacing, for the same reason.
- Wishlist.Click: the script uses the icon without a null check (script.js:146-154), so every wishlist button is assumed to hold an `<i>`; on a button without one the script would flip the class and then fail before showing a toast.
- The start-up banner written to the console (script.js:340).

## Findings

| source | as written | input that shows it | evidently intended | confidence | as-written member | corrected member |
|---|---|---|---|---|---|---|
| script.js:279-292 | a click that hides a card schedules `display = 'none'` after 300 ms and no later click cancels it | filter `villa`, then `all` within 300 ms, on a card of category `apartment`: the card ends hidden although `all` is active | a card ends shown exactly when the latest token selects it | medium, not executed | FilterTimers.StaleHideTimerHidesCard | FilterTimers.CorrectedSettlesOnLastFilter |
