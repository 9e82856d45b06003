# JDD Painting website — behavioural model

The site for a painting contractor. Its behaviour sits in two files:

- `script.js`, the browser script. The model covers its interactive core:
  - the contact form's client-side validator (`validateField`), with its `blur` and `input` listeners and the submit gate;
  - the FAQ accordion;
  - the gallery's category filter;
  - the rotating words of the hero heading;
  - the mobile testimonials carousel.
- `contact.php`, the endpoint the form posts to. It accepts only `POST`, checks the required fields and the address, sends one HTML e-mail and answers with a one-key JSON object and an HTTP status.

The modules:

| file | module | what it holds |
|---|---|---|
| `Wrappers.dfy` | `Wrappers` | `Option` |
| `Flags.dfy` | `Flags` | how many of a row of DOM on/off flags are on (`active` classes, shown cards) |
| `Text.dfy` | `Text` | JavaScript `trim` and `split(',')`, PHP `trim` |
| `Patterns.dfy` | `Patterns` | the e-mail and phone regular expressions as predicates, with what they accept |
| `Validation.dfy` | `Validation` | `validateField` as a function, the list of rules a field breaks, and the form as a class |
| `Accordion.dfy` | `Accordion` | the FAQ click handler, as a function on flags and as a method on an array |
| `GalleryFilter.dfy` | `GalleryFilter` | the filter-button click handler |
| `Rotation.dfy` | `Rotation` | the word rotation and the carousel |
| `Contact.dfy` | `Contact` | the PHP request handler |

How the model represents the source:

- Code that mutates DOM state in loops is written as classes over arrays with `modifies` clauses: the accordion, the gallery, the carousel and the form's error classes. Each method is proved against a function or predicate that specifies it.
- The validator and the PHP handler compute a value, so they are functions.
- The PHP library filters (`FILTER_SANITIZE_STRING`, `FILTER_SANITIZE_EMAIL`, `FILTER_VALIDATE_EMAIL`) are parameters of the handler, and so is the result of `mail()`. Every property holds for any choice of them, except where a lemma states an assumption about them (`AbsentPhoneRejected` assumes that sanitising the empty string gives the empty string, as the real filter does).

The phone rule is easy to misread as "ten digits". The pattern `^[\+]?[\d\s\-\(\)]{10,}$` counts spaces, hyphens and parentheses towards the ten, and the model follows the pattern: ten hyphens pass (`TenHyphensAccepted`).

## Model

| member | source | states |
|---|---|---|
| Flags.Count | script.js:152-158 | the number of items whose `active` class is on is at most the number of items, and is zero exactly when no item is on |
| Flags.OnlyAtCount | script.js:152-158 | when only position k can be on, at most one flag is on, and exactly one is on iff position k is on |
| Flags.ExactlyAtCount | script.js:118-119 | when exactly position k is on, exactly one flag is on |
| Flags.CountAllOn | script.js:125 | a row of flags that are all on counts its whole length |
| Text.JsTrim | script.js:203 | JavaScript's `value.trim()`: strips ECMAScript whitespace and line terminators at both ends (its properties are the `Trim` lemmas below) |
| Text.PhpTrim | contact.php:4-8 | PHP's `trim`: strips space, tab, LF, CR, NUL and vertical tab at both ends |
| Text.TrimStartDrops | script.js:203 | what leading-trim removes is a run of whitespace; what it keeps is a suffix not starting with whitespace |
| Text.TrimEndDrops | script.js:203 | what trailing-trim removes is a run of whitespace; what it keeps is a prefix not ending with whitespace |
| Text.TrimSlice | script.js:203 | `trim()` keeps a contiguous slice of the value, removes only whitespace on either side, and the slice neither starts nor ends with whitespace |
| Text.TrimEmptyIffBlank | script.js:203 | the trimmed value is empty exactly when the value is empty or all whitespace |
| Text.TrimIdempotent | script.js:203 | trimming twice is trimming once |
| Text.SplitComma | script.js:403 | `split(',')` returns at least one piece and no piece contains a comma |
| Text.JoinSplit | script.js:403 | joining the pieces with commas gives back the attribute text |
| Text.SplitCount | script.js:403 | there is one piece more than there are commas |
| Patterns.MatchesEmail | script.js:221 | the e-mail pattern piece by piece: a run of `[^\s@]`, `@`, a run, `.`, a run, anchored at both ends, for some choice of the `@` and the `.` |
| Patterns.MatchedEmailHasShape | script.js:221 | a value the e-mail pattern accepts has no whitespace, exactly one `@` with something before it, and a domain with an inner `.` |
| Patterns.ShapedEmailMatches | script.js:221 | a value of that shape is accepted by the e-mail pattern |
| Patterns.EmailPatternShape | script.js:221 | the e-mail pattern accepts exactly the values of that shape |
| Patterns.MatchesPhone | script.js:229 | the phone pattern: an optional `+`, then ten or more of `[\d\s\-\(\)]` to the end |
| Patterns.PhoneBody | script.js:229 | the part after the optional leading `+` is a suffix of the value |
| Patterns.PhonePatternShape | script.js:229 | the phone pattern accepts exactly the values that, after one optional `+`, have ten or more characters, all digits, whitespace, `-`, `(` or `)` |
| Patterns.TenHyphensAccepted | script.js:229 | ten hyphens without a digit are accepted |
| Patterns.PlusNotCounted | script.js:229 | `+` followed by nine digits is rejected: the `+` does not count towards the ten |
| Patterns.WellFormedEmailAccepted | script.js:221 | `jane@x.com` is accepted |
| Patterns.TwoAtSignsRejected | script.js:221 | an address with two `@` is rejected |
| Patterns.NoAtSignRejected | script.js:221 | a value without `@` is rejected |
| Patterns.PhoneExamples | script.js:229 | `555-123-4567` and `+1 (555) 123-4567` are accepted; `123` and a value with a letter are rejected |
| Validation.MessageOf | script.js:216-244 | every rule has a non-empty message |
| Validation.ValidateField | script.js:202-254 | a field passes exactly when it gets no message |
| Validation.Judge | script.js:213-245 | the five rule checks in source order on the trimmed value, each failing one overwriting the message; passes exactly when the message is empty |
| Validation.Breaks | script.js:213-245 | each rule's condition judged on its own |
| Validation.Violations | script.js:213-245 | the list of rules a field breaks, in source order: the reference the validator is proved against |
| Validation.ValidateFieldReportsLastViolation | script.js:213-253 | the validator passes a field iff it breaks none of the five rules; otherwise it shows the message of the last broken rule in source order, because later rules overwrite the message |
| Validation.ValidateTrimmedValue | script.js:203 | the verdict depends only on the trimmed value |
| Validation.BlankRequiredRejected | script.js:214-217 | a required field that is empty or whitespace-only fails with the "required" message, unless it is an unchecked privacy checkbox |
| Validation.BlankOptionalAccepted | script.js:214-245 | a blank optional field passes, unless it is an unchecked privacy checkbox |
| Validation.EmailFieldRule | script.js:220-226 | a non-blank `email` field passes iff its trimmed value has the address shape; when it fails, the e-mail message is shown |
| Validation.PhoneFieldRule | script.js:228-234 | a non-blank `phone` field passes iff its trimmed value has the phone shape; when it fails, the phone message is shown |
| Validation.NameLengthRule | script.js:236-239 | a one-character `name` fails with the length message; two or more characters pass |
| Validation.PrivacyRule | script.js:241-245 | the privacy checkbox passes iff it is checked, whenever the required rule cannot fire (a checkbox's value is `on` unless the markup says otherwise); a required checkbox with an empty value fails with the required message even when checked |
| Validation.ShowMessage | script.js:205-211 | setting an input's error text changes only the entry of that input's error element, and only if the element exists |
| Validation.PassUpToAll | script.js:188-194 | the flag the submit loop accumulates is true exactly when every input passes |
| Validation.ShownMessagesMatchVerdicts | script.js:190-194 | when input names are distinct, after the loop each error element shows exactly its input's message, which is empty when the input passes |
| Validation.ContactForm.constructor | script.js:170-172 | the form starts with the inputs, `error` classes and error texts the markup gives it |
| Validation.ContactForm.ValidateInput | script.js:209-253 | judging an input (`blur`) sets its `error` class to the verdict, leaves the values and the other inputs' classes alone, and sets its error element to the verdict's message |
| Validation.ContactForm.OnInput | script.js:177-181 | an edit gives input i its new value and checked state (typing, or ticking a checkbox); the input is re-judged only if it is already marked, so a marked input whose new state passes, such as a ticked privacy box, ends unmarked with an empty error text; an unmarked input keeps its class and the texts stay |
| Validation.ContactForm.Submit | script.js:185-199 | every input is judged without a short cut, each `error` class ends equal to its input's verdict, and the form is submitted iff every input passes |
| Accordion.AfterClick | script.js:148-160 | the click produces one flag per FAQ item |
| Accordion.AtMostOneOpen | script.js:148-160 | after any click at most one item is open |
| Accordion.ClickOpenItemClosesAll | script.js:149-157 | clicking the open item leaves none open |
| Accordion.ClickClosedItemOpensIt | script.js:149-159 | clicking a closed item leaves exactly that item open |
| Accordion.ClickToggles | script.js:149-159 | a click toggles the clicked item |
| Accordion.DoubleClickClosesAll | script.js:149-159 | two clicks on a closed item leave nothing open |
| Accordion.Faq.constructor | script.js:143 | the items start with their rendered `active` flags |
| Accordion.Faq.Click | script.js:148-160 | the click loop clears every item and then opens the clicked one if it was closed, giving exactly `AfterClick` of the old flags |
| GalleryFilter.Shows | script.js:125 | `filter === 'all' \|\| filter === category`, a missing attribute being `None`, so a button without a filter shows the items without a category |
| GalleryFilter.Visible | script.js:122-131 | one visibility flag per gallery item |
| GalleryFilter.AllShowsEverything | script.js:125 | the `all` button shows every item |
| GalleryFilter.CategoryFilter | script.js:125 | any other filter shows an item iff its category equals the filter |
| GalleryFilter.UnmatchedFilterHidesAll | script.js:125-130 | a filter that matches no category hides every item |
| GalleryFilter.Gallery.constructor | script.js:110-111 | the buttons start with the `active` flags the markup gives them, any number of them, and the items with no inline style |
| GalleryFilter.Gallery.Click | script.js:113-131 | afterwards exactly the clicked button is active; each item is `block` or `none` per the filter; shown items get the fade-in animation and hidden ones keep theirs |
| Rotation.RotationWords | script.js:400-403 | a missing or empty `data-words` stops the animation; otherwise there is at least one word and the words joined by commas give back the attribute |
| Rotation.NextModulo | script.js:412 | advancing an index already reduced modulo n gives the count plus one reduced modulo n |
| Rotation.ShownAfter | script.js:404-413 | the heading after c changes: the rendered text while c is 0, then the word at c modulo the word count |
| Rotation.WordRotator.constructor | script.js:403-404 | the rotation starts at index 0 with the rendered text |
| Rotation.WordRotator.BeginChange | script.js:408 | the first half of a change only adds the fade-out |
| Rotation.WordRotator.FinishChange | script.js:410-417 | the timer half moves to the next index modulo the word count, shows that word and removes the fade-out; the index always equals the number of changes modulo the word count, and the text is word `changes % |words|` |
| Rotation.RotationPeriodic | script.js:412-413 | once a first change has happened, the heading after t + \|words\| changes is the heading after t changes |
| Rotation.EveryWordShown | script.js:412-413 | every word is shown: word j is the heading after j + m·\|words\| changes whenever that number is at least 1 |
| Rotation.RenderedTextUntilFirstChange | script.js:404-413 | before any change the rendered text stays; changes 1 to \|words\|-1 show words 1 to \|words\|-1 in order, and change \|words\| shows the first word |
| Rotation.CarouselEnabled | script.js:617 | the carousel is set up only when the viewport is at most 768 px wide and there are at least two cards |
| Rotation.SetupAsWritten | script.js:615-666 | the set-up as written: when enabled it throws at the `map` call, before hiding a card, building a dot or starting the timer |
| Rotation.SetupIntended | script.js:617-690 | the set-up as intended: when enabled, one dot per card, only the first card and the first dot on, and the timer running |
| Rotation.AsWrittenCarouselNeverStarts | script.js:615-623 | as written, whenever the carousel should start, the set-up throws, every card stays displayed, no dot exists and nothing slides |
| Rotation.IntendedCarouselShowsOneCard | script.js:617-690 | as intended, an enabled carousel shows exactly one card and one active dot, with one dot per card |
| Rotation.DisabledCarouselUntouched | script.js:617 | when the carousel is not enabled, both versions leave every card displayed and build no dot |
| Rotation.Carousel.constructor | script.js:617-666 | the carousel state equals the intended set-up: only the first card is shown and only the first dot is active |
| Rotation.Carousel.SelectDot | script.js:671-683 | after a dot click exactly the clicked card and dot are on, and the index is the clicked one |
| Rotation.Carousel.AutoSlide | script.js:687-690 | the timer moves to the next card, wrapping to the first, and keeps exactly one card and one dot on |
| Contact.Posted | contact.php:4-8 | `$_POST[$key]`, a missing field reading as the empty string after `trim` |
| Contact.PhpEmpty | contact.php:11 | PHP's `empty()` on a string: the empty string and `"0"` |
| Contact.Sanitize | contact.php:4-8 | each field trimmed, then passed through its sanitising filter (the e-mail filter for `email`, the string filter for the rest) |
| Contact.MissingRequired | contact.php:11 | name, e-mail, phone or service is empty; the message is not checked |
| Contact.MailBody | contact.php:29-46 | the HTML notification text with the five fields filled in |
| Contact.MailHeaders | contact.php:49-52 | the four header lines, `From` and `Reply-To` naming the submitter's address |
| Contact.Notification | contact.php:25-55 | the one `mail()` call: fixed recipient, the service in the subject, the body and the headers |
| Contact.JsonBody | contact.php:56-63 | the JSON text `json_encode` writes for the one-key reply |
| Contact.HandleSubmission | contact.php:2-64 | the status is 200, 400, 405 or 500; the key is `success` only for 200; at most one mail is sent, and one is sent exactly for 200 and 500 |
| Contact.NonPostRejected | contact.php:61-63 | a non-POST request gets 405, `{"error":"Method not allowed."}` and no mail |
| Contact.MissingFieldRejected | contact.php:11-15 | a POST whose name, email, phone or service is empty or "0" after trimming and sanitising gets 400 with the missing-fields error, before the address is checked |
| Contact.AbsentPhoneRejected | contact.php:4-15 | a POST without a `phone` field is answered like an empty one: 400 with the missing-fields error |
| Contact.InvalidEmailRejected | contact.php:18-22 | a complete POST whose address fails validation gets 400 with the invalid-address error |
| Contact.OneMailForAccepted | contact.php:24-55 | a mail is sent exactly for accepted submissions, exactly one, to the fixed recipient, with the service in the subject, the filled-in body, and the sanitised address in `From` and `Reply-To` |
| Contact.HeadersNameSender | contact.php:49-52 | the headers contain the `From` and `Reply-To` lines of the given address |
| Contact.MailResultDecides | contact.php:55-60 | for an accepted submission, `mail()`'s result decides between 200 with the thanks and 500 with the send error |
| Contact.MessageNotRequired | contact.php:4-11 | two requests that agree on the method and the four required fields get the same status, reply and number of mails, whatever their messages |
| Contact.ReplacedMessageSameAnswer | contact.php:8-11 | replacing the message, even by nothing, does not change the answer |

## Left out

- DOM plumbing, CSS and styling are not modelled. That covers element lookup, class-list calls on elements the model does not track, inline styles other than `display`, and the injected carousel `<style>` block.
- Timers are not modelled as time: the 200 ms fade, the 2 s start and 3 s period of the word rotation, and the 5 s carousel slide. Each timer callback is a method that callers invoke in order.
- `submitForm` is not modelled; the submit gate stops at the decision to call it. The same goes for the other `script.js` features that do not decide state the core depends on: the mobile menu, header scroll, smooth scrolling, intersection-observer reveals, counters, notifications and SEO helpers. `about-script.js` is not part of this model.
- Rotation.WordRotator.constructor: the element lookup with its two selectors and the early returns are reduced to `RotationWords` giving no words; the rotator is built only when there is at least one word.
- Validation.NameLengthRule: JavaScript's `length` counts UTF-16 code units, but the model counts Unicode scalar values. A single character outside the Basic Multilingual Plane has length 2 in the browser and passes there, while the model rejects it.
- Validation.ContactForm.Submit: inputs that share a name share one error element, and the later input's message wins. `ShownMessagesMatchVerdicts` states the per-input result only when names are distinct.
- Contact.HandleSubmission: the PHP filters and `mail()` are opaque parameters, so the model does not capture what `FILTER_SANITIZE_STRING` strips. It also omits that this filter is deprecated since PHP 8.1, and PHP's deprecation notice for `trim(null)` on a missing field.
- Contact.HandleSubmission: a POST field sent as an array (`phone[]=1`) is not representable, since `post` maps names to strings. In PHP 8 `trim` then throws a `TypeError`, which gives HTTP 500 with no JSON body.
- Contact.JsonBody: escaping in `json_encode` is not modelled; none of the fixed messages needs any.
- Output buffering, headers already sent, and the `exit` calls are reduced to returning the response.

## Findings

| source | as written | input that shows it | evidently intended | confidence | as-written member | corrected member |
|---|---|---|---|---|---|---|
| script.js:623 | `testimonials.map(...)` is called on the `NodeList` that `querySelectorAll` returns (script.js:615), and a `NodeList` has no `map`. The set-up throws a `TypeError`: no card is hidden, no dot is built, no timer starts. The exception also leaves the `DOMContentLoaded` callback, so everything after it there is skipped: the initialisers at script.js:767, 805 and 868, the global `error` listener (script.js:875-878) and the fallback for browsers without `IntersectionObserver` (script.js:881-887), where `.animate-on-scroll` content is then never animated in. | a viewport 768 px wide or less with two or more testimonial cards (`AsWrittenCarouselNeverStarts`) | one dot per card, only the first card and first dot on, sliding every five seconds (e.g. `Array.from(testimonials).map`) | high; not executed | Rotation.SetupAsWritten | Rotation.SetupIntended |
