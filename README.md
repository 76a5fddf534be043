# instaMedics service-request form: a Dafny model

This project models the core of the instaMedics service-request form. That
core has four parts:

- **The renderer.** It walks an author-written schema of field descriptors
  and decides which fields are visible. A section always shows its
  children. A checkbox that declares children shows them while it is
  checked. A select that declares children shows the first child whose
  `condition.value` equals the selected value. Each field gets a path made
  from its ancestors' ids joined by dots.
- **The field component.** It puts a label (with an asterisk when the field
  is required) above a control chosen by the field's `type`. It also holds
  the multi-select: a header that opens and closes an option list, with
  the selection kept in the form store.
- **The form's submit lifecycle.** This covers the submitting flag, the
  three status messages and how each is styled, and the document-wide
  handler that closes open multi-selects when the mouse is pressed outside
  the form.
- **The e-mail route.** `formatFormData` flattens the submitted answers to
  plain text, one `key: value` line per entry. A nested object gives a
  `key:` line, then its own lines flush left (nothing is indented), then an
  empty line. The route then answers 200 when the mail transport accepts
  the message and 500 when it throws.

Modules, one per file:

- `Text` (text.dfy): JavaScript's decimal rendering of integers and
  `String.prototype.includes`.
- `Schema` (schema.dfy): field descriptors, store values, JavaScript
  truthiness and `===`.
- `FormState` (form_state.dfy): the form store, with `watch` and `setValue`.
- `FormField` (form_field.dfy): the field component and the `MultiSelect`
  class.
- `DynamicForm` (dynamic_form.dfy): `renderFields`, the `Submission` class
  and the click-outside handler.
- `SendEmail` (send_email.dfy): the JSON value, the `formatFormData` loop
  proved against a line-by-line specification, and `POST`.

The mail transport, the request body and the HTTP exchange are not computed
by the model. They are parameters:

- `SendResult` says whether `sendMail` succeeded.
- `DispatchOutcome` says whether `fetch` answered with `ok` or threw.
- The `valid` argument of `PressSubmit` is the verdict of the form
  library's validation.
- `insideForm` says whether the pressed element lies inside the form.

The route builds an operator e-mail (app/api/send-email/route.ts:27-32)
and a client e-mail (app/api/send-email/route.ts:34-46), but sends only the
client one: the operator send is commented out
(app/api/send-email/route.ts:49). The model has the single send.

Each field's path is its ancestors' ids and its own joined by dots. When
every id is non-empty and dot-free and siblings' ids differ, no two rendered
fields share a path (`DynamicForm.RenderFormPathsDistinct`). Without that
condition paths can collide: `DynamicForm.DottedIdsCollide` gives a
top-level field `a.b` and a field `b` inside a section `a`, both bound to
the path `a.b`.

## Model

| member | source | states |
|---|---|---|
| Text.NatToString | app/api/send-email/route.ts:14 | the key of an array index or a string position is a canonical decimal numeral |
| Text.NatToStringRoundTrip | app/api/send-email/route.ts:14 | reading the rendered numeral back gives the index, so the key names the position it came from |
| Text.NatToStringInjective | app/api/send-email/route.ts:14 | distinct indices give distinct keys |
| Text.IntToString | app/api/send-email/route.ts:18 | `${n}` of an integer is its decimal numeral, with a leading minus sign exactly for negatives |
| Text.Includes | components/DynamicForm.tsx:130 | `includes` holds exactly when the marker occurs as a contiguous block at some index |
| Text.IncludesMiddle | components/DynamicForm.tsx:130 | a block in the middle of a concatenation is included in it |
| Text.MissingCharExcludes | components/DynamicForm.tsx:130 | a string lacking one of the marker's characters does not include the marker |
| FormState.FormStore.constructor | components/DynamicForm.tsx:8 | a freshly mounted form's store holds nothing: every `watch` reads undefined |
| Schema.Truthy | components/DynamicForm.tsx:81 | a stored value is truthy exactly when it is present and is not "", 0 or false; a list is always truthy |
| Schema.StrictEquals | components/DynamicForm.tsx:93 | `===` holds exactly when both sides are undefined or both are the same primitive; a list, compared by identity, equals nothing read from the store |
| FormState.Lookup | components/FormField.tsx:31 | `watch(path)` is defined exactly when the path was written, and then it is the stored value |
| FormState.FormStore.SetValue | components/FormField.tsx:63 | `setValue(path, v)` replaces the value at that path and leaves every other path unchanged |
| FormField.RenderWidget | components/FormField.tsx:76-144 | a control exists exactly for the nine known types; `register(id, { required })` is used exactly for text, email, tel, number, textarea, select and date, plain `register` only for checkbox, and no registration for multiselect; date renders as `datetime-local`; a select lists the empty "Select an option" entry and then the options in order |
| FormField.RenderLabel | components/FormField.tsx:148-152 | a label is shown exactly when the type is not checkbox; it shows the field's label text, with the asterisk exactly when the field is required |
| FormField.RenderFormField | components/FormField.tsx:146-156 | an unknown type gets its label and no control; a checkbox has no label above it and labels its own box; every required-capable type gets a label and a control bound to the field's path |
| FormField.SelectedValues | components/FormField.tsx:31 | `watch(id) \|\| []`: a missing or falsy value reads as the empty selection, and a stored list is the selection |
| FormField.RemoveAll | components/FormField.tsx:60-62 | the filtered selection no longer contains the value, and filtering out an absent value changes nothing |
| FormField.RemoveAllKeepsOrder | components/FormField.tsx:60-62 | the values that survive filtering keep their original order |
| FormField.RemoveAllCounts | components/FormField.tsx:60-62 | filtering drops every occurrence of the value and keeps the number of occurrences of every other value |
| FormField.RemoveAllAppend | components/FormField.tsx:60-62 | filtering distributes over concatenation |
| FormField.NewSelection | components/FormField.tsx:58-62 | checking appends the value after the previous selection, which is kept unchanged; unchecking removes every occurrence and keeps the multiset of the other values |
| FormField.ChangeShowsNewState | components/FormField.tsx:56-62 | after a change the option's value is selected exactly when its box was checked |
| FormField.ToggleValue | components/FormField.tsx:56-62 | clicking a selected option removes every occurrence of it, and the other values survive with their multiplicities and in their original order; clicking an unselected one appends it after the unchanged selection |
| FormField.CheckThenUncheckRestores | components/FormField.tsx:58-62 | checking a value that was not selected, then unchecking it, restores the previous selection exactly |
| FormField.ToggleTwiceRestores | components/FormField.tsx:56-62 | two clicks on an option that was not selected leave the selection as it was |
| FormField.ToggleSequenceExample | components/FormField.tsx:56-62 | from nothing, clicking B, then A, then B leaves exactly ["A"] |
| FormField.Summary | components/FormField.tsx:40-42 | the header reads "Select options" exactly when nothing is selected; otherwise it reads a canonical numeral equal to the number of selected values, followed by " selected" |
| FormField.MultiSelect.constructor | components/FormField.tsx:28 | a multi-select starts closed |
| FormField.MultiSelect.ToggleOpen | components/FormField.tsx:37 | a click on the header flips this control's open flag |
| FormField.MultiSelect.Header | components/FormField.tsx:39-43 | the header shows "Select options" exactly when the stored selection is empty |
| FormField.MultiSelect.OptionRows | components/FormField.tsx:46-71 | no option list while closed; while open, every option in order, each checked exactly when its value is in the stored selection |
| FormField.MultiSelect.ChangeOption | components/FormField.tsx:57-64 | the store at the control's path becomes the new selection and nothing else changes; the changed option's box then shows the new state |
| DynamicForm.ComposePath | components/DynamicForm.tsx:65 | a top-level field's path is its id; a nested one's is the parent path, a dot, and the id |
| DynamicForm.ComposedIsBelow | components/DynamicForm.tsx:65 | any path at or below a child's path lies strictly below its parent's path |
| DynamicForm.ComposePathInjective | components/DynamicForm.tsx:65 | for dot-free ids the composed path determines both the parent path and the id |
| DynamicForm.SegmentAt | components/DynamicForm.tsx:65 | a path at or below a child's path holds the child's id right after the parent path, followed by a dot or by the end of the path |
| DynamicForm.SiblingSubtreesDisjoint | components/DynamicForm.tsx:65 | no path lies at or below two siblings whose plain ids differ |
| DynamicForm.DottedIdsCollide | components/DynamicForm.tsx:65 | a top-level field `a.b` and a field `b` inside a section `a` are rendered at the same path `a.b` |
| DynamicForm.FirstMatch | components/DynamicForm.tsx:92-94 | `find` returns the first child whose `condition?.value` strictly equals the selected value, and none when no child matches |
| DynamicForm.FirstMatchIsFirst | components/DynamicForm.tsx:92-94 | a child that matches while no earlier child does is the one `find` returns |
| DynamicForm.RenderFields | components/DynamicForm.tsx:63-110 | every sibling produces at least one rendered entry |
| DynamicForm.RenderNode | components/DynamicForm.tsx:64-108 | a node renders itself first, at its composed path |
| DynamicForm.RenderForm | components/DynamicForm.tsx:119 | every top-level field appears at its bare id, and every rendered entry lies at or below the path of some top-level field |
| DynamicForm.RenderFieldsUnder | components/DynamicForm.tsx:63-110 | every entry a sibling list renders lies at or below the path of one of the siblings |
| DynamicForm.RenderFieldsBelow | components/DynamicForm.tsx:63-110 | everything a sibling list renders lies strictly below the parent path |
| DynamicForm.RenderNodeBelow | components/DynamicForm.tsx:64-108 | whatever a node renders after itself lies strictly below its own path |
| DynamicForm.RenderFieldsAppend | components/DynamicForm.tsx:64 | siblings render in schema order: rendering a concatenation is the concatenation of the renderings |
| DynamicForm.WellFormedAppend | components/DynamicForm.tsx:67-71 | two schemas whose sections all declare children still have that property when concatenated |
| DynamicForm.EverySiblingRendered | components/DynamicForm.tsx:64-65 | every field of a sibling list appears in the rendering at its composed path |
| DynamicForm.SectionShowsAllChildren | components/DynamicForm.tsx:67-74 | a section shows every child at the section's path dotted with the child's id, whatever the store holds |
| DynamicForm.CheckboxShowsChildrenIffChecked | components/DynamicForm.tsx:76-88 | a checkbox that declares children shows them all while its stored value is truthy, and renders alone otherwise; it shows more than itself exactly when it is checked and has children |
| DynamicForm.SelectShowsFirstMatchingChild | components/DynamicForm.tsx:90-106 | a select that declares children renders alone when no child's trigger matches; otherwise it renders the first matching child, under the select's path |
| DynamicForm.LeafRendersAlone | components/DynamicForm.tsx:108 | any other node renders as exactly one field bound to its path; this includes a checkbox or select that declares no children |
| DynamicForm.RenderNodeDependsOnlyOnSubtree | components/DynamicForm.tsx:76-106 | a node's rendering depends only on the stored values at or below its path |
| DynamicForm.RenderFieldsDependsOnlyOnSubtree | components/DynamicForm.tsx:63-110 | a sibling list's rendering depends only on the stored values below its parent path |
| DynamicForm.RenderNodePathsDistinct | components/DynamicForm.tsx:64-108 | when ids are non-empty, dot-free and distinct among siblings, a node's rendering repeats no path |
| DynamicForm.RenderFieldsPathsDistinct | components/DynamicForm.tsx:63-110 | under the same condition a sibling list's rendering repeats no path: different siblings' subtrees never share one |
| DynamicForm.RenderFormPathsDistinct | components/DynamicForm.tsx:119 | under the same condition every path names at most one rendered field of the form |
| DynamicForm.StatusMessage | components/DynamicForm.tsx:48-58 | the success message exactly for an ok response, the failure message exactly for a response that is not ok, and the error message exactly when the request threw |
| DynamicForm.MessagesDistinct | components/DynamicForm.tsx:48-58 | the three status messages are pairwise different |
| DynamicForm.StyleOf | components/DynamicForm.tsx:127-133 | no status line while the status is null or empty; the line is green exactly when the status includes "successfully" |
| DynamicForm.SuccessMessageIncludesMarker | components/DynamicForm.tsx:49-51 | the success message includes "successfully" |
| DynamicForm.FailureMessageLacksMarker | components/DynamicForm.tsx:53 | the failure message does not include "successfully" |
| DynamicForm.ErrorMessageLacksMarker | components/DynamicForm.tsx:57 | the error message does not include "successfully" |
| DynamicForm.SuccessMessageStyled | components/DynamicForm.tsx:127-133 | the success message is shown in green |
| DynamicForm.FailureMessageStyled | components/DynamicForm.tsx:127-133 | the failure message is shown in red |
| DynamicForm.ErrorMessageStyled | components/DynamicForm.tsx:127-133 | the error message is shown in red |
| DynamicForm.SuccessStyleIffOk | components/DynamicForm.tsx:48-58 | every outcome's message is shown, and it is green exactly when the response was ok |
| DynamicForm.Submission.constructor | components/DynamicForm.tsx:10-11 | a fresh form is not submitting and has no status |
| DynamicForm.Submission.ButtonDisabled | components/DynamicForm.tsx:122 | the submit button is disabled exactly while a submission is in flight |
| DynamicForm.Submission.ButtonText | components/DynamicForm.tsx:125 | the button reads "Submitting..." exactly when it is disabled and "Submit" exactly when it is enabled |
| DynamicForm.Submission.BeginSubmit | components/DynamicForm.tsx:36-37 | submitting starts: the flag is set, the status is cleared and hidden, and the button is disabled and reads "Submitting..." |
| DynamicForm.Submission.FinishSubmit | components/DynamicForm.tsx:48-60 | once the request settles, the status is the message for its outcome and the button is enabled again and reads "Submit" |
| DynamicForm.Submission.OnSubmit | components/DynamicForm.tsx:35-61 | `onSubmit` ends not submitting, with the outcome's message, styled green exactly when the response was ok |
| DynamicForm.Submission.PressSubmit | components/DynamicForm.tsx:116-125 | a press starts a submission exactly when the button is enabled and validation passes; otherwise nothing changes |
| DynamicForm.HandleClickOutside | components/DynamicForm.tsx:15-27 | a press outside the form leaves every multi-select closed; a press inside changes nothing |
| SendEmail.Show | app/api/send-email/route.ts:18 | `${value}` of a string is the string itself, of an integer its decimal numeral, of a boolean "true" or "false", and of null "null" |
| SendEmail.Entry | app/api/send-email/route.ts:14 | `Object.entries` yields an object's own members and an array's elements keyed by their decimal indices |
| SendEmail.FormatFormData | app/api/send-email/route.ts:12-22 | the loop builds exactly the text of the recursive definition `Formatted`: one chunk per entry, in entry order, recursing into object values |
| SendEmail.TerminatedAppend | app/api/send-email/route.ts:16-18 | the text of two line lists, one after the other, is the concatenation of their texts |
| SendEmail.EntryText | app/api/send-email/route.ts:15-19 | a non-object entry gives `key: value` and a newline; an object entry gives `key:`, a newline, the value's own flattening, and a newline |
| SendEmail.ChunksInEntryOrder | app/api/send-email/route.ts:14-20 | the first n entries' text followed by entry n's chunk is a prefix of the whole flattening |
| SendEmail.PrefixGrows | app/api/send-email/route.ts:14-20 | the text of fewer entries is a prefix of the text of more entries |
| SendEmail.LinesPrefix | app/api/send-email/route.ts:14-20 | the lines of fewer entries are a prefix of the lines of more entries: later entries only append |
| SendEmail.SingleEntry | app/api/send-email/route.ts:14-20 | a value with exactly one entry flattens to that entry's chunk alone |
| SendEmail.FormattedEmptyIffNoEntries | app/api/send-email/route.ts:13-21 | the flattening is empty exactly when the value has no entries |
| SendEmail.ArrayUsesIndexKeys | app/api/send-email/route.ts:14-18 | an array `["A"]` flattens to `0: A` and a newline |
| SendEmail.NestedObjectExample | app/api/send-email/route.ts:15-16 | `{a: {b: "c"}}` flattens to `a:`, `b: c`, then an empty line, each followed by a newline |
| SendEmail.ResponseFor | app/api/send-email/route.ts:48-61 | the status is 200 exactly when the send succeeded and 500 exactly when it threw |
| SendEmail.MemberValue | app/api/send-email/route.ts:36 | the value parsed for a key is absent exactly when no member has that key, and otherwise it is the value of the last member with that key |
| SendEmail.Post | app/api/send-email/route.ts:24-62 | for a body whose `requestorInfo` can be read, the details block is the flattening of the submitted data, and the answer is the one for the send's result |
| SendEmail.ResponseOk | components/DynamicForm.tsx:48 | `response.ok` holds exactly for a 2xx status, so the route's 200 is ok and its 500 is not |
| SendEmail.SubmitSucceedsIffDelivered | app/api/send-email/route.ts:48-61 | end to end: the form shows the success message exactly when the e-mail was delivered, and the failure message exactly when the send threw |

## Left out

- Mail transport, environment variables, and the HTML and subject of the
  client e-mail: these are I/O. A send is the `SendResult` parameter; the
  text of the details block is modelled.
- The operator e-mail (app/api/send-email/route.ts:27-32, 49): its send is
  commented out in the code. Its text is the same flattening, so
  `SendEmail.Formatted` covers it.
- SendEmail.Post: requires a body that is an object whose last
  `requestorInfo` member is present and not null. Otherwise
  `formData.requestorInfo.email` (app/api/send-email/route.ts:36) throws a
  TypeError before the `try`: nothing is sent and the route gives no JSON
  answer of its own. A `requestorInfo` without an `email` does not throw;
  it passes `to: undefined` to the transport, which is inside the
  `SendResult` parameter.
- SendEmail.FormatFormData: requires a non-null argument.
  `Object.entries(null)` throws, and that happens outside the route's `try`.
- SendEmail.Show: numbers are integers. JavaScript's rendering of
  fractions, of large numbers in exponent form, and of `NaN` is floating
  point and not modelled.
- SendEmail.Entry: takes an object's entries in the order the parsed JSON
  lists them. JavaScript's reordering of integer-like keys and the merging
  of duplicate keys are not modelled.
- `fetch`, `JSON.stringify`, `req.json()` and the `async` suspension: a
  request's result is the `DispatchOutcome` parameter. `OnSubmit` assumes
  nothing runs between its two halves. `PressSubmit` and the disabled
  button describe what can happen in that gap.
- The `console.error` logging: it is I/O.
- The form library's validation of required fields: it is the `valid`
  parameter of `PressSubmit`.
- DynamicForm.RenderFields: requires every section to declare `fields`, and
  a node that declares no children to hold none. The code throws
  (`undefined.map`) only when a section without `fields` is actually
  rendered, for instance under a checkbox that is checked. The model
  refuses every schema with such a section outright, including one where
  the section is never reached.
- DynamicForm.RenderNode: renders a select's chosen child directly instead
  of through `renderFields([child])`. The output is the same.
- DynamicForm.HandleClickOutside: the DOM query for `.absolute.z-10` and
  `.cursor-pointer` is modelled as the set of controls whose option list is
  open. Whether the pressed element is inside the form is a parameter.
  Registering and removing the listener is left out.
- FormField.SelectedValues: a stored value that is truthy but not a list
  reads as the empty selection. In the code it goes on as that value. A
  stored string is read as a string: `.length` counts its characters and
  `.includes` finds substrings. A number or `true` has no `length`, so the
  header reads "Select options", and `.includes` throws while the option
  list is open.
- Markup, CSS classes, placeholders beyond their presence, and React keys:
  these are presentation.
