# Contact form validation and escaping, modelled in Dafny

The portfolio page's script (`script.js`) has one part with real logic: the contact form. This project models that part:

- **`escapeHtml`** (module `HtmlEscape`, `html_escape.dfy`). This is the escaper the review panel applies to every submitted value. It is written as the source writes it: five `replaceAll` passes, ampersand first. It is proved equal to a per-character reference definition. From that follow three facts: the output holds no `<`, `>`, `"` or `'`; every `&` in it opens one of the five character references; and decoding the references gives the original value back.
- **The rules of `validateField`** (module `FieldRules`, `field_rules.dfy`). These are JavaScript's `trim`, the address regular expression `/^[^\s@]+@[^\s@]+\.[^\s@]+$/` written as an explicit predicate, and the four rules in their fixed order: required, email shape, name length, message length. Only the first failing rule is reported.
- **The error annotations and the submit handler** (module `ContactForm`, `contact_form.dfy`). A class `Form` holds the controls, each control's `error` flag, the `.error-message` texts in each control's container, the submit button's label and `disabled` state, and the requests posted. `ClearFieldError`, `ShowFieldError` and `ValidateField` follow the source statement by statement. `Submit` is the handler: `ValidateAll` is its validation loop, which checks every control with no short-circuit, and `Send` covers the steps up to posting the request.
- `Wrappers` (`wrappers.dfy`) holds an `Option` type. `FormData.get` answers a string or `null`, and `escapeHtml` maps a missing value to `""`.

Three details of the code that the model follows exactly:

- The address rule is the regular expression exactly. The address needs a single `@`. The domain needs a `.` that is neither its first nor its last character. No part may hold whitespace.
- The name and message length rules have separate messages ("Name at least 2 chars", "Message at least 10 chars").
- Typing in a control does not clear its error. See "Left out".

## Model

| member | source | states |
|---|---|---|
| `HtmlEscape.ReplaceAll` | script.js:355-359 | One `replaceAll` pass never leaves the replaced character in its output unless the replacement text holds it. |
| `HtmlEscape.EscapeChars` | script.js:353-359 | The per-character reference definition of escaping. Its output is at least as long as its input and holds no `<`, `>`, `"` or `'`. |
| `HtmlEscape.EscapeHtml` | script.js:352-360 | A missing or empty value gives `""`. Any other value gives the concatenation, in order, of each character's replacement: one of `&amp; &lt; &gt; &quot; &#039;`, or the character itself. |
| `HtmlEscape.ReplaceChainOne` | script.js:354-359 | On a single character, the five passes together produce exactly that character's entity. |
| `HtmlEscape.ChainIsPerChar` | script.js:354-359 | `ReplaceChain`, the source's five `replaceAll` passes with `&` first, equals per-character escaping on every string. Because `&` is replaced first, no ampersand the chain introduces is escaped again. |
| `HtmlEscape.ReplaceAllAppend` | script.js:355 | A `replaceAll` pass distributes over concatenation. |
| `HtmlEscape.EscapeRoundTrip` | script.js:354-359 | Decoding the five character references in the escaped text yields the original string. |
| `HtmlEscape.EscapeHtmlRoundTrip` | script.js:352-360 | The escaper's output decodes to the value it was given, and a missing value decodes to `""`. |
| `HtmlEscape.EscapeHtmlInjective` | script.js:352-360 | Two values with the same escaped text are equal. |
| `HtmlEscape.AmpersandsOpenEntities` | script.js:355-359 | Every `&` in escaped text begins `&amp;`, `&lt;`, `&gt;`, `&quot;` or `&#039;`. |
| `HtmlEscape.EscapeKeepsPlainText` | script.js:354-359 | A value without any of the five special characters is returned unchanged. |
| `FieldRules.TrimStart` | script.js:249 | The dropped prefix is all whitespace, the rest is a suffix of the input, and it does not start with whitespace. |
| `FieldRules.TrimEnd` | script.js:249 | The dropped suffix is all whitespace, the rest is a prefix of the input, and it does not end with whitespace. |
| `FieldRules.TrimShape` | script.js:249 | `Trim`, the model of `trim()` (`TrimEnd` after `TrimStart`), gives a slice of the value with only whitespace before and after it. |
| `FieldRules.TrimEnds` | script.js:249 | The trimmed value neither starts nor ends with whitespace. |
| `FieldRules.TrimEmptyIffAllSpace` | script.js:249-251 | The trimmed value is empty exactly when the value is empty or all whitespace. |
| `FieldRules.EmailNeedsAtSign` | script.js:255 | A value without an `@` never matches the address pattern. |
| `FieldRules.EmailPatternIff` | script.js:255 | `MatchesEmailPattern` is the regular expression as a predicate: a word, `@`, a word, `.`, a word, where a word is non-empty and holds no `@` and no whitespace. Let `i` be the position of an `@`. The pattern matches if and only if that `@` is the only one, the local part before it is non-empty and has no whitespace, and the domain after it has no whitespace and a `.` that is neither its first nor its last character. |
| `FieldRules.NoDotAfterAtFails` | script.js:255 | `a@b` does not match the address pattern. |
| `FieldRules.ShortAddressPasses` | script.js:255 | `a@b.co` matches the address pattern. |
| `FieldRules.Check` | script.js:249-267 | The verdict is "required" exactly when the value is empty or whitespace only, whatever the control's name and type. |
| `FieldRules.PassIffNoRuleViolated` | script.js:251-267 | A control passes if and only if none of the four rules rejects its trimmed value. |
| `FieldRules.FirstViolationReported` | script.js:251-267 | A failing control reports one rule: one that rejects it, with every earlier rule in the order required, email, name, message accepting it. |
| `FieldRules.BlankIsRequired` | script.js:249-254 | An empty or whitespace-only value fails with "This field is required" for every control. |
| `FieldRules.NameRule` | script.js:259-262 | The control named `name` fails exactly when its trimmed length is below 2. It fails with the name-length message exactly when that length is 1. |
| `FieldRules.MessageRule` | script.js:263-266 | The control named `message` fails exactly when its trimmed length is below 10. It fails with the message-length message exactly when that length is 1 to 9. |
| `FieldRules.OtherFieldRule` | script.js:251-267 | A control with any other name and no email type, such as `subject`, passes exactly when it is not blank. |
| `FieldRules.EmailRule` | script.js:255-258 | The email-typed control passes exactly when its trimmed value matches the pattern. It fails with "Enter valid email" exactly when that value is not blank and does not match. |
| `ContactForm.FormValue` | script.js:297-301 | `FormData.get` gives nothing when no control has the name. Otherwise it gives the raw value of the first control with that name. |
| `ContactForm.ReviewOf` | script.js:336-345 | Each of the four values shown in the review panel holds no markup character and decodes back to the value submitted. |
| `ContactForm.Form.ClearFieldError` | script.js:241-245 | The control loses its `error` flag and its container's message. Nothing else changes. |
| `ContactForm.Form.ShowFieldError` | script.js:270-281 | The control gets the `error` flag, and its container holds exactly the new message. A container never holds two messages. |
| `ContactForm.Form.ValidateField` | script.js:247-268 | The result is true exactly when the control passes its rules. Afterwards the control has the `error` flag and exactly one message (the first failing rule's) if and only if the result is false. No other control changes. |
| `ContactForm.Form.ValidateAll` | script.js:286-290 | Every control is validated, with no short-circuit, and carries the annotation of its own verdict. The result is true exactly when all controls pass. |
| `ContactForm.Form.Send` | script.js:292-320 | Exactly one request is posted. It is recorded as `Capture(fields)`: the four `fd.get` values of script.js:297-301, each given by `FormValue`. The button ends with its original label and enabled. |
| `ContactForm.Form.Submit` | script.js:284-320 | Every control is validated and carries the annotation of its own verdict. The submission goes ahead exactly when all controls pass. If any fails, the button and the request log are unchanged. Otherwise exactly one request with the captured values is posted, and the button ends with its original label and enabled. |

## Left out

- The network exchange (script.js:303-317 and 323-333) is not modelled. This covers the `fetch` POST's response, the `res.ok` branch, the exception path, `simulateOffline` and its 2-second timer, and `contactForm.reset()`. They are asynchronous I/O and timers. `Send` records that the request goes out and stops there, with the button restored. The restore at script.js:319-320 runs on both response paths.
- ContactForm.Form.Send: it is atomic. In the source the handler suspends at `await fetch` (script.js:304) while the button is disabled and labelled "Sending...". Blur validation and further submit attempts can run during that wait, and the disabled button is what blocks a second submit. The model does not capture that in-flight state or anything that runs during the wait. A request is also recorded only as the four `fd.get` values (script.js:297-301), not as the whole form data posted as its body (script.js:306).
- Notifications (`showNotification` and its icon and colour tables), the review panel's markup and styling, and the injected stylesheet are DOM rendering (script.js:221-228, 336-349 apart from the escaping, 363-402).
- The `blur` and `input` event hookups (script.js:236-239) are not modelled. The `input` handler passes an event object, not the control, to `clearFieldError`. So typing does not clear an error, and the model makes no such claim.
- The theme toggle, navigation, scrolling, observers, typing animation, focus trap, performance log and service worker (script.js:1-216, 404-422) are browser glue.
- FieldRules.Check: lengths count characters (code points), but JavaScript's `.length` counts UTF-16 code units. A character outside the Basic Multilingual Plane counts 1 here and 2 in the browser.
- FieldRules.IsSpace: it is the fixed set of ECMAScript WhiteSpace and LineTerminator code points, which `trim` and `\s` use. It does not follow later Unicode changes to the space-separator category.
- ContactForm.Form: each control is assumed to have its own container. If two controls shared a parent element, `querySelector(".error-message")` would find the other control's message. The model does not cover that.
- HtmlEscape.EscapeHtml: its input is a string or nothing. Other falsy JavaScript values (`0`, `false`) never reach it from the form.
