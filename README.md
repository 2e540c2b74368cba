# Page enhancer script, modelled in Dafny

`entregable.js` is the one script of a static, Bootstrap-based information
site about prevention topics (health, addictions, sexual health, personal
finance). When the page has loaded, it:

- sets up Bootstrap tooltips and popovers;
- shows toasts (a welcome toast after two seconds, an info toast when an info
  button is clicked, a success toast when the contact form is sent);
- handles the contact form's submit;
- staggers a fade-in animation over the cards and the hero section;
- picks an accent colour and a hero icon from the page's file name.

It also has a stub that looks topics up in a one-entry table.

This project models the decision rules and the state changes in that script:

- `options.dfy`: `Option`, standing for a JavaScript `null` result.
- `js_string.dfy`: the string built-ins the script relies on, as pure
  functions with their defining properties proved. These are `includes`,
  `trim`, `split` and `pop` on a split's result.
- `toasts.dfy`: the `type` switch that styles a toast, and the
  `.toast-container` element as a class whose `children` sequence is changed
  in place. `showToast` appends one new element, or does nothing when there is
  no container. The `hidden` handler removes exactly that element, by object
  identity.
- `contact_form.dfy`: the submit handler. It shows a success toast, then hides
  the dialog, then resets the form.
- `page_theme.dfy`: `setupPageTheme` in two parts. `GetTheme` is a pure
  function from the path and the current `--secondary-color` value to a colour
  and an optional icon. `Document.SetupPageTheme` writes that theme into the
  page, step by step as the script does. Both first-match chains are proved
  equal to a lookup in an ordered rule table.
- `animations.dfy`: `applyEntranceAnimations` over an array of element
  records. Delays are whole tenths of a second.
- `topics.dfy`: `loadTopicData`.

The model's inputs stand for the script's reads of the browser:

- The toast container is a parameter that may be `null`.
- The computed value of `--secondary-color` is the `Document.secondaryColor`
  field.
- The `.hero-icon i` element is the `Document.heroIconClass` option.
- Whether the dialog has a Bootstrap instance is a boolean parameter.
- The page's elements are an array in document order.

## Model

| member | source | states |
|---|---|---|
| `Toasts.StyleOf` | entregable.js:51-67 | `success`, `warning` and `error` each get their own background and icon (`bg-success`/`bi-check-circle`, `bg-warning`/`bi-exclamation-triangle`, `bg-danger`/`bi-x-circle`). Each holds if and only if the type is that string. The info styling (`bg-primary`/`bi-info-circle`) is chosen exactly when the type is none of the three |
| `Toasts.ClassNameHasBackground` | entregable.js:71 | the chosen background class appears in the toast's class attribute as a token of its own, with a space on each side |
| `Toasts.ToastElement.constructor` | entregable.js:70-71 | a new toast element carries the title, the message, the class attribute built from the style's background class, and the style's icon |
| `Toasts.Without` | entregable.js:94-96 | after removal the element is gone, everything left was there before, and every other element is still present |
| `Toasts.WithoutAbsent` | entregable.js:95 | removing an element that is not in the container changes nothing |
| `Toasts.WithoutAt` | entregable.js:95 | in a container without repeated elements, removing the element at position k closes the gap and keeps the other elements in their order |
| `Toasts.ShowThenHide` | entregable.js:87-96 | appending a new toast and then removing it gives back exactly the earlier children |
| `Toasts.ToastContainer.IndexOf` | entregable.js:95 | returns the position of the element among the children, or -1 exactly when it is not a child. The position found is the first one that holds the element |
| `Toasts.ToastContainer.Append` | entregable.js:87 | `appendChild`: the new element goes last, the earlier children are untouched, and no element appears twice |
| `Toasts.ToastContainer.Remove` | entregable.js:94-96 | `remove()` by identity: the new children are the old ones without that element, and no element appears twice |
| `Toasts.ShowToast` | entregable.js:43-97 | with no container, nothing changes and no toast is made. Otherwise exactly one fresh toast is appended at the end, styled by `StyleOf(type)` and carrying the title and the message, and the earlier toasts are unchanged |
| `Toasts.ShowThenHidden` | entregable.js:87-96 | showing a toast and later running its `hidden` handler leaves the container as it was |
| `Toasts.ShowWelcomeToast` | entregable.js:100-106 | appends one info-styled toast with the fixed welcome title and message, or nothing when there is no container |
| `Toasts.OnInfoButtonClick` | entregable.js:35-38 | appends one info-styled toast with the fixed information title and message, or nothing when there is no container |
| `ContactForm.Form.Reset` | entregable.js:128 | every control gets back its default value |
| `ContactForm.OnContactSubmit` | entregable.js:112-129 | a success toast with the fixed title and message is appended, or nothing when there is no container. With a dialog instance the form is reset. Without one the handler stops at `hide()` on null, so the form keeps what was typed |
| `JsString.ContainsIff` | entregable.js:156-164 | `includes` holds exactly when the word occurs at some position of the text |
| `JsString.ContainsTrans` | entregable.js:156-177 | a text that contains a word also contains every word that word contains. So a name with "salud-mental" in it contains "salud" |
| `JsString.MissingLetter` | entregable.js:156-177 | a text cannot contain a word if, wherever the word's k-th letter would have to fall, that letter is missing |
| `JsString.TrimStart` | entregable.js:154 | the result is a tail of the text, everything cut off is whitespace, and the result starts with non-whitespace or is empty |
| `JsString.TrimEnd` | entregable.js:154 | the result is a head of the text, everything cut off is whitespace, and the result ends with non-whitespace or is empty |
| `JsString.TrimIsCore` | entregable.js:154 | `trim` returns a middle slice of the text with whitespace on neither end. Everything cut away on both sides is whitespace |
| `JsString.TrimEmptyIff` | entregable.js:154 | `trim` returns "" exactly when the text is all whitespace |
| `JsString.TrimIdempotent` | entregable.js:154 | trimming twice gives the same result as trimming once |
| `JsString.Split` | entregable.js:150 | `split` returns at least one piece, even for the empty text |
| `JsString.SplitPieces` | entregable.js:150 | no piece of a split contains the separator. A text without the separator comes back as the single piece it is, and a text with one gives more than one piece |
| `JsString.SplitJoin` | entregable.js:150 | joining the pieces of a split with the separator gives the text back |
| `JsString.JoinSplit` | entregable.js:150 | splitting a text joined from separator-free pieces gives those pieces back |
| `JsString.SplitLastIsTail` | entregable.js:150 | the last piece (`pop`) is the tail of the path after its last separator, or the whole path when it has no separator |
| `PageTheme.PageName` | entregable.js:150 | the page name is never empty and never contains `/`. For an empty path, or one ending in `/`, it is `index.html`. Otherwise it is the tail of the path that follows the last `/` |
| `PageTheme.PageNameOfFile` | entregable.js:150 | for any directory followed by `/` and a file name, the page name is that file name |
| `PageTheme.FirstMatch` | entregable.js:156-164 | an ordered rule table gives no value exactly when no key occurs in the name. Otherwise it gives the value of a matching rule such that no earlier rule matches |
| `PageTheme.ColorRulesInOrder` | entregable.js:156-164 | reading the colour table first-match means testing "salud", "adicciones", "sexual" and "financiera" in that order |
| `PageTheme.BaseColor` | entregable.js:153-154 | with nothing read, the colour is grey `#6c757d`. Any other value read is returned trimmed (`trim`). A value that is only whitespace becomes "", and that is the only way to get "". Otherwise the result has no whitespace at either end |
| `PageTheme.AccentColor` | entregable.js:153-164 | the `if`/`else if` colour chain equals the first-match lookup in the colour table, falling back to the base colour |
| `PageTheme.GetTheme` | entregable.js:150-177 | the theme of a path: its colour is the first-match lookup of the page name in the colour table, falling back to the base colour of the value read. Its icon is the first-match lookup in the icon table, where none means the icon is left alone |
| `PageTheme.HeroIcon` | entregable.js:173-177 | the icon chain equals the first-match lookup in the icon table ("salud-mental", then "adicciones"). No match means the icon is left alone |
| `PageTheme.HealthTakesPrecedence` | entregable.js:156-164 | any name that contains "salud" is green, even when it also contains "sexual" or "adicciones" |
| `PageTheme.UncategorisedColor` | entregable.js:153-164 | when none of the four words occurs, the colour is the base colour. That is grey when nothing was read, and "" when only whitespace was read |
| `PageTheme.IconAgreesWithColor` | entregable.js:156-177 | a page with the mental-health icon is always green. A page with the shield icon is red, or green when its name also says "salud" |
| `PageTheme.RootPathTheme` | entregable.js:150-177 | an empty path, or one ending in `/`, gets the base colour, and its icon is left alone |
| `PageTheme.PhysicalHealthPage` | entregable.js:156-177 | `salud-fisica.html` is green and its icon is left alone |
| `PageTheme.PhysicalHealthPageTheme` | entregable.js:150-177 | `.../salud-fisica.html`, under any directory, is green and its icon is left alone |
| `PageTheme.VapingPage` | entregable.js:156-177 | `adicciones-vapeo.html` is red and gets the shield icon |
| `PageTheme.VapingPageTheme` | entregable.js:150-177 | `.../adicciones-vapeo.html`, under any directory, is red and gets the shield icon |
| `PageTheme.ThemeReapplied` | entregable.js:153-167 | `GetTheme` given its own colour as the value read returns that colour again, except in one case. That case is a name with no category and a value read that is whitespace only: the colour is then "", and `GetTheme` given "" returns grey |
| `PageTheme.Document.SetupPageTheme` | entregable.js:145-180 | the colour written is `GetTheme(path, previous value).color`. A page without a hero icon still has none. A page with one gets the theme's icon, or keeps its old class when the theme has no icon |
| `Animations.AddClass` | entregable.js:140 | `classList.add` keeps the existing classes in order and adds the token only if it is not there yet |
| `Animations.SelectedBeforeGrows` | entregable.js:137-139 | the number of matched elements before a position grows past each matched element |
| `Animations.QuerySelectAll` | entregable.js:135 | returns, in document order, exactly the positions of the elements that have class `card` or `hero-section`. The j-th position has exactly j matched elements before it |
| `Animations.ApplyEntranceAnimations` | entregable.js:134-142 | afterwards the array equals `Animated` of the old array. The j-th matched element gains `fade-in` and a delay of j tenths, and every other element is unchanged |
| `Animations.Animated` | entregable.js:135-141 | the page after the step has the same number of elements, and each element matches `.card, .hero-section` exactly when it did before |
| `Animations.AnimatedElements` | entregable.js:137-141 | every matched element has `fade-in` and a delay of as many tenths as there are matched elements before it. Unmatched elements are left as they were |
| `Animations.NoneSelectedBefore` | entregable.js:135-137 | the `forEach` index of a position is 0 exactly when no element before it matches the selector |
| `Animations.FirstStartsAtOnce` | entregable.js:137-139 | a matched element gets delay 0 exactly when it is the first matched element of the page |
| `Animations.StaggeredDelays` | entregable.js:137-139 | delays strictly increase from each matched element to the next, in document order |
| `Topics.LoadTopicData` | entregable.js:193-208 | `vapeo` gives the fixed vaping record with its four fields, and every other id gives null |

## Left out

- Tooltip and popover setup (entregable.js:4-13): these are only constructor calls into Bootstrap, a library outside this model.
- Event wiring (entregable.js:2, 16-25, 31, 34-36, 110-112): `DOMContentLoaded`, the one-shot 2000 ms `setTimeout`, and registering the click and submit listeners are event-loop plumbing. The handlers they run are modelled.
- Bootstrap's `Toast.show()` and its auto-hide timing (entregable.js:90-91): these belong to the library. The model only covers what the `hidden` handler does once the library fires it.
- `Modal.getInstance(...).hide()` (entregable.js:124-125): only whether the instance exists is modelled, as `dialogInstance`. Hiding the dialog belongs to the library.
- `e.preventDefault()` (entregable.js:113): the model has no navigation state to preserve.
- The toast's inner markup and ARIA attributes (entregable.js:72-84): this is HTML rendering. Title and message are kept as fields of the element, and the interpolation is not escaped.
- `console.warn` when there is no container (entregable.js:46): this is logging only.
- `getComputedStyle` and `style.setProperty` (entregable.js:153, 167, 183-185): both are modelled as one field, `Document.secondaryColor`. The difference between a computed value and an inline value is not modelled.
- `style.setProperty` with "" (entregable.js:153, 167): when the colour is "", the model stores "" in `Document.secondaryColor`. A browser removes the inline declaration instead, so a later read would give the stylesheet's value again. The script runs the theme step only once (entregable.js:25), so the model never makes that second read.
- `setCssVariable` (entregable.js:187-190): nothing in the script calls it.
- Delay text (entregable.js:139): the floating-point text of the delay, such as `0.30000000000000004s`, is replaced by whole tenths.
- `topicData[topicId]` (entregable.js:207): inherited object keys such as `constructor` are a JavaScript runtime detail, not intended behaviour. They are not modelled.
- The `type` parameter (entregable.js:43): non-string values are not modelled, and a missing value is passed as "info", the default. JavaScript's `switch` compares strictly, so every non-string value would get the info styling anyway.
- Element structure (entregable.js:135, 170): elements are a flat array in document order, without tree structure. `.hero-icon i` is a single optional class string.
- `classList` (entregable.js:140): a class list is a sequence in the model. The browser's `DOMTokenList` is an ordered set. `AddClass` adds no second copy of its token, but it keeps any duplicates the list already had, where the browser would have collapsed them.
- Container contents: the toast container is modelled as holding toast elements only.
